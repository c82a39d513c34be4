/**
 The delivery table and one worker's pass over it, each statement run to its end. The rows and
 their changes are those of `WebhookOutbox`, where many workers interleave.
 */
module WebhookStore {
  import opened Options
  import opened Replies
  import opened WebhookOutbox

  const BATCH_SIZE: nat := 20

  predicate Earliest(d: DeliveryId, due: set<DeliveryId>, rows: map<DeliveryId, Row>)
    requires due <= rows.Keys
  {
    d in due && forall e :: e in due ==> rows[d].nextAttemptAt <= rows[e].nextAttemptAt
  }

  lemma EarliestExists(due: set<DeliveryId>, rows: map<DeliveryId, Row>)
    requires due <= rows.Keys && due != {}
    ensures exists d :: Earliest(d, due, rows)
  {
    var d :| d in due;
    if due == {d} {
      assert Earliest(d, due, rows);
    } else {
      EarliestExists(due - {d}, rows);
      var e :| Earliest(e, due - {d}, rows);
      assert forall x :: x in due ==> x == d || x in due - {d};
      assert Earliest(if rows[d].nextAttemptAt <= rows[e].nextAttemptAt then d else e, due, rows);
    }
  }

  function ClaimedRow(row: Row): Row { row.(attempts := row.attempts + 1) }

  predicate IsClaimed(claims: seq<Claim>, d: DeliveryId) { exists i :: 0 <= i < |claims| && claims[i].delivery == d }

  function DueRows(
      rows: map<DeliveryId, Row>, endpoints: map<EndpointId, bool>, now: int, locked: set<DeliveryId>)
      : set<DeliveryId> {
    set d | d in rows && Due(rows[d], endpoints, now) && d !in locked
  }

  /** Distinct due deliveries with their next attempt numbers, none of them later than one left out. */
  ghost predicate EarliestFirst(claims: seq<Claim>, due: set<DeliveryId>, rows: map<DeliveryId, Row>)
    requires due <= rows.Keys
  {
    && (forall i :: 0 <= i < |claims| ==>
        claims[i].delivery in due && claims[i].attempts == rows[claims[i].delivery].attempts + 1)
    && (forall i, j :: 0 <= i < j < |claims| ==> claims[i].delivery != claims[j].delivery)
    && (forall i, e :: 0 <= i < |claims| && e in due && !IsClaimed(claims[..i], e)
          ==> rows[claims[i].delivery].nextAttemptAt <= rows[e].nextAttemptAt)
  }

  function AfterClaims(rows: map<DeliveryId, Row>, claims: seq<Claim>): map<DeliveryId, Row> {
    map d | d in rows :: if IsClaimed(claims, d) then ClaimedRow(rows[d]) else rows[d]
  }

  function AfterReaping(rows: map<DeliveryId, Row>, endpoints: map<EndpointId, bool>): map<DeliveryId, Row> {
    map d | d in rows :: ReapedRow(rows[d], endpoints)
  }

  // ---- the writes of an attempt -----------------------------------------------------------

  /** One write on a delivery's row: the first write of an attempt, or that of its `catch`. */
  datatype Write =
    | ReportWrite(claim: Claim, outcome: Outcome, reply: Reply, now: int)
    | CatchWrite(claim: Claim, reply: Reply, now: int)

  function WrittenRow(row: Row, w: Write): Row {
    match w
    case ReportWrite(c, outcome, reply, now) => ReportedRow(row, c, outcome, reply, now)
    case CatchWrite(c, reply, now) => CaughtRow(row, c, reply, now)
  }

  function AfterWrites(rows: map<DeliveryId, Row>, ws: seq<Write>): map<DeliveryId, Row> {
    if ws == [] then rows
    else
      var w := ws[|ws| - 1];
      OnRow(AfterWrites(rows, ws[..|ws| - 1]), w.claim.delivery, (row: Row) => WrittenRow(row, w))
  }

  /** How one attempt goes: what sending comes to, what the store says to each write, and the clock at each. */
  datatype Course = Course(outcome: Outcome, first: Reply, second: Reply, reportAt: int, catchAt: int)

  /** The writes one attempt makes. */
  function WritesOf(c: Claim, course: Course): seq<Write> {
    [ReportWrite(c, course.outcome, course.first, course.reportAt)]
    + (if GoesToCatch(course.outcome, course.first) then [CatchWrite(c, course.second, course.catchAt)] else [])
  }

  /** The attempt ends without an error: its last write was answered. */
  predicate EndsWell(course: Course) {
    if GoesToCatch(course.outcome, course.first) then course.second.Answered? else course.first.Answered?
  }

  function WritesOfAll(claims: seq<Claim>, courses: DeliveryId -> Course): seq<Write> {
    if claims == [] then []
    else
      var c := claims[|claims| - 1];
      WritesOfAll(claims[..|claims| - 1], courses) + WritesOf(c, courses(c.delivery))
  }

  type TenantId = string

  datatype Endpoint = Endpoint(tenant: TenantId, enabled: bool)

  /** The endpoints as the outbox sees them. */
  function Enabled(endpoints: map<EndpointId, Endpoint>): map<EndpointId, bool> {
    map e | e in endpoints :: endpoints[e].enabled
  }

  /** What a pass reports back, or an error that some statement raised. */
  datatype DrainResult = Drained(attempted: nat, orphansReaped: nat) | DrainFailed

  class Table {
    var endpoints: map<EndpointId, Endpoint>
    var rows: map<DeliveryId, Row>

    constructor ()
      ensures endpoints == map[] && rows == map[]
    {
      endpoints, rows := map[], map[];
    }

    method EnqueueDelivery(d: DeliveryId, endpoint: EndpointId, now: int) returns (ok: bool)
      modifies this`rows
      ensures ok == (d !in old(rows))
      ensures rows == (if ok then old(rows)[d := Row(endpoint, Pending, 0, now, None)] else old(rows))
    {
      ok := d !in rows;
      if ok { rows := rows[d := Row(endpoint, Pending, 0, now, None)]; }
    }

    /** Deleting an endpoint leaves its deliveries to be reaped; another tenant's endpoint is not found. */
    method DeleteEndpoint(tenant: TenantId, e: EndpointId) returns (existed: bool)
      modifies this`endpoints
      ensures existed == (e in old(endpoints) && old(endpoints)[e].tenant == tenant)
      ensures endpoints == if existed then old(endpoints) - {e} else old(endpoints)
    {
      existed := e in endpoints && endpoints[e].tenant == tenant;
      if existed { endpoints := endpoints - {e}; }
    }

    /**
     Claims the earliest due deliveries that nobody has locked, in order, up to the limit: each
     once, each with its next attempt number, and nothing that was left out was due earlier.
     */
    method ClaimDueDeliveries(limit: nat, now: int, locked: set<DeliveryId>) returns (claims: seq<Claim>)
      modifies this`rows
      ensures EarliestFirst(claims, DueRows(old(rows), Enabled(endpoints), now, locked), old(rows))
      ensures var due := |DueRows(old(rows), Enabled(endpoints), now, locked)|;
              |claims| == if due <= limit then due else limit
      ensures rows == AfterClaims(old(rows), claims)
    {
      var due := DueRows(rows, Enabled(endpoints), now, locked);
      var left := due;
      claims := [];
      ghost var before := rows;
      NoneClaimed(before, due);
      DueAreRows(rows, Enabled(endpoints), now, locked);
      hide *;
      while |claims| < limit && left != {}
        invariant left <= due && |claims| + |left| == |due| && |claims| <= limit
        invariant forall d :: d in due ==> (d in left <==> !IsClaimed(claims, d))
        invariant EarliestFirst(claims, due, before)
        invariant rows == AfterClaims(before, claims)
        decreases left
      {
        SameKeys(before, claims);
        EarliestExists(left, rows);
        var d :| d in left && Earliest(d, left, rows);
        ClaimOneMore(claims, d, due, left, before);
        RaisedAttempts(before[d]);
        rows := rows[d := ClaimedRow(rows[d])];
        claims := claims + [Claim(d, rows[d].attempts)];
        left := left - {d};
      }
    }

    /** A refused write changes nothing; a lost reply is an error although the row was written. */
    method MarkDelivered(d: DeliveryId, reply: Reply) returns (ok: bool)
      modifies this`rows
      ensures ok == reply.Answered?
      ensures rows == if reply.Rejected? then old(rows)
                      else OnRow(old(rows), d, (row: Row) => row.(status := Succeeded, lastError := None))
    {
      if !reply.Rejected? && d in rows { rows := rows[d := rows[d].(status := Succeeded, lastError := None)]; }
      ok := reply.Answered?;
    }

    method MarkFailed(d: DeliveryId, cause: Cause, retryAt: Option<int>, reply: Reply) returns (ok: bool)
      modifies this`rows
      ensures ok == reply.Answered?
      ensures rows == if reply.Rejected? then old(rows)
                      else OnRow(old(rows), d, (row: Row) =>
                        if retryAt.None? then row.(status := Dead, lastError := Some(cause))
                        else row.(status := Pending, lastError := Some(cause), nextAttemptAt := retryAt.value))
    {
      ok := reply.Answered?;
      if !reply.Rejected? && d in rows {
        if retryAt.Some? {
          rows := rows[d := rows[d].(status := Pending, lastError := Some(cause), nextAttemptAt := retryAt.value)];
          return;
        }
        rows := rows[d := rows[d].(status := Dead, lastError := Some(cause))];
      }
    }

    method ReapOrphanedDeliveries() returns (count: nat)
      modifies this`rows
      ensures count == |set d | d in old(rows) && old(rows)[d].status == Pending && old(rows)[d].endpoint !in endpoints|
      ensures rows == AfterReaping(old(rows), Enabled(endpoints))
    {
      count := |set d | d in rows && Orphaned(rows[d], Enabled(endpoints))|;
      assert (set d | d in rows && Orphaned(rows[d], Enabled(endpoints)))
          == set d | d in rows && rows[d].status == Pending && rows[d].endpoint !in endpoints;
      rows := map d | d in rows :: ReapedRow(rows[d], Enabled(endpoints));
    }

    method FailOrRetry(claim: Claim, reply: Reply, now: int) returns (ok: bool)
      modifies this`rows
      ensures ok == reply.Answered?
      ensures rows == OnRow(old(rows), claim.delivery, (row: Row) => CaughtRow(row, claim, reply, now))
    {
      if claim.attempts >= MAX_ATTEMPTS {
        ok := MarkFailed(claim.delivery, Failed(claim.attempts), None, reply);
      } else {
        ok := MarkFailed(claim.delivery, Failed(claim.attempts), Some(now + BackoffMs(claim.attempts)), reply);
      }
    }

    /**
     One attempt: a blocked address is buried at once, outside the try; inside it, a missing answer
     or an error of the first write, even of one that was committed, ends in the catch.
     */
    method Attempt(claim: Claim, course: Course) returns (ok: bool)
      modifies this`rows
      ensures ok == EndsWell(course)
      ensures rows == AfterWrites(old(rows), WritesOf(claim, course))
    {
      ghost var before := rows;
      var report := ReportWrite(claim, course.outcome, course.first, course.reportAt);
      WriteOnce(before, report);
      if course.outcome.UrlBlocked? {
        ok := MarkFailed(claim.delivery, Blocked, None, course.first);
        return;
      }
      var answered := false;
      if course.outcome.Responded? {
        if IsSuccess(course.outcome.status) {
          answered := MarkDelivered(claim.delivery, course.first);
        } else {
          answered := FailOrRetry(claim, course.first, course.reportAt);
        }
      }
      assert rows == AfterWrites(before, [report]);
      if answered { return true; }
      WriteTwice(before, report, CatchWrite(claim, course.second, course.catchAt));
      ok := FailOrRetry(claim, course.second, course.catchAt);
    }

    /**
     One pass: reap the orphans, claim up to a batch of due deliveries and attempt each of them. An
     error of reaping or claiming ends the pass, but not what the statement did; an error in one
     attempt fails the pass but not the other attempts.
     */
    method DrainWebhookOutbox(
        now: int, locked: set<DeliveryId>, courses: DeliveryId -> Course, reaping: Reply, claiming: Reply)
      returns (result: DrainResult, claims: seq<Claim>)
      modifies this`rows
      ensures |claims| <= BATCH_SIZE
      ensures var reaped := if reaping.Rejected? then old(rows) else AfterReaping(old(rows), Enabled(endpoints));
        && EarliestFirst(claims, DueRows(reaped, Enabled(endpoints), now, locked), reaped)
        && rows == AfterWrites(AfterClaims(reaped, claims),
                               if claiming.Answered? then WritesOfAll(claims, courses) else [])
      ensures !reaping.Answered? || claiming.Rejected? ==> claims == []
      ensures result == if reaping.Answered? && claiming.Answered? && AllEndWell(claims, courses)
        then Drained(|claims|, |set d | d in old(rows) && old(rows)[d].status == Pending
                                            && old(rows)[d].endpoint !in endpoints|)
        else DrainFailed
    {
      hide AfterWrites;
      hide WritesOfAll;
      hide AllEndWell;
      claims := [];
      if reaping.Rejected? {
        NoClaims(rows);
        NoWrites(rows, courses);
        return DrainFailed, claims;
      }
      var orphansReaped := ReapOrphanedDeliveries();
      NoClaims(rows);
      NoWrites(rows, courses);
      if reaping.Unanswered? || claiming.Rejected? { return DrainFailed, claims; }
      claims := ClaimDueDeliveries(BATCH_SIZE, now, locked);
      NoClaims(rows);
      if claiming.Unanswered? { return DrainFailed, claims; }
      var ok := AttemptAll(claims, courses);
      result := if ok then Drained(|claims|, orphansReaped) else DrainFailed;
    }

    /** Every attempt of the batch is made, whether or not another one ends in an error. */
    method AttemptAll(claims: seq<Claim>, courses: DeliveryId -> Course) returns (ok: bool)
      modifies this`rows
      ensures rows == AfterWrites(old(rows), WritesOfAll(claims, courses))
      ensures ok <==> AllEndWell(claims, courses)
    {
      hide AfterWrites;
      hide WritesOf;
      hide EndsWell;
      NoWrites(rows, courses);
      ok := true;
      for i := 0 to |claims|
        invariant rows == AfterWrites(old(rows), WritesOfAll(claims[..i], courses))
        invariant ok <==> AllEndWell(claims[..i], courses)
      {
        assert claims[..i + 1][..i] == claims[..i];
        WritesInTurn(old(rows), WritesOfAll(claims[..i], courses), WritesOf(claims[i], courses(claims[i].delivery)));
        var ended := Attempt(claims[i], courses(claims[i].delivery));
        assert AllEndWell(claims[..i + 1], courses) <==> AllEndWell(claims[..i], courses) && ended by {
          assert claims[..i + 1] == claims[..i] + [claims[i]];
        }
        ok := ok && ended;
      }
      assert claims[..|claims|] == claims;
    }
  }

  predicate AllEndWell(claims: seq<Claim>, courses: DeliveryId -> Course) {
    forall i :: 0 <= i < |claims| ==> EndsWell(courses(claims[i].delivery))
  }

  lemma NoWrites(rows: map<DeliveryId, Row>, courses: DeliveryId -> Course)
    ensures AfterWrites(rows, WritesOfAll([], courses)) == rows
  {
  }

  lemma NoClaims(rows: map<DeliveryId, Row>)
    ensures AfterClaims(rows, []) == rows && AfterWrites(rows, []) == rows
  {
  }

  lemma WriteOnce(rows: map<DeliveryId, Row>, w: Write)
    ensures AfterWrites(rows, [w]) == OnRow(rows, w.claim.delivery, (row: Row) => WrittenRow(row, w))
  {
    assert [w][..0] == [];
  }

  lemma WriteTwice(rows: map<DeliveryId, Row>, v: Write, w: Write)
    ensures AfterWrites(rows, [v] + [w])
         == OnRow(AfterWrites(rows, [v]), w.claim.delivery, (row: Row) => WrittenRow(row, w))
  {
    assert ([v] + [w])[..1] == [v];
  }

  lemma {:induction false} WritesInTurn(rows: map<DeliveryId, Row>, vs: seq<Write>, ws: seq<Write>)
    ensures AfterWrites(rows, vs + ws) == AfterWrites(AfterWrites(rows, vs), ws)
  {
    if ws == [] {
      assert vs + ws == vs;
    } else {
      WritesInTurn(rows, vs, ws[..|ws| - 1]);
      assert (vs + ws)[..|vs + ws| - 1] == vs + ws[..|ws| - 1];
    }
  }

  // ---- concurrent attempts ------------------------------------------------------------------

  /** The writes on one delivery, in order. */
  function OwnWrites(ws: seq<Write>, d: DeliveryId): seq<Write> {
    if ws == [] then []
    else OwnWrites(ws[..|ws| - 1], d) + (if ws[|ws| - 1].claim.delivery == d then [ws[|ws| - 1]] else [])
  }

  function RowAfter(row: Row, ws: seq<Write>): Row {
    if ws == [] then row else WrittenRow(RowAfter(row, ws[..|ws| - 1]), ws[|ws| - 1])
  }

  /** A row ends as its own writes leave it, whatever is written to other rows in between. */
  lemma {:induction false} OnlyOwnWritesMatter(rows: map<DeliveryId, Row>, ws: seq<Write>, d: DeliveryId)
    requires d in rows
    ensures AfterWrites(rows, ws).Keys == rows.Keys && AfterWrites(rows, ws)[d] == RowAfter(rows[d], OwnWrites(ws, d))
  {
    if ws != [] {
      hide WrittenRow;
      OnlyOwnWritesMatter(rows, ws[..|ws| - 1], d);
      var own, w := OwnWrites(ws[..|ws| - 1], d), ws[|ws| - 1];
      assert (own + [w])[..|own|] == own;
      assert own + [] == own;
    }
  }

  /** The attempts of a batch run concurrently; every interleaving that keeps each attempt's own order ends alike. */
  lemma {:induction false} InterleavingDoesNotMatter(rows: map<DeliveryId, Row>, vs: seq<Write>, ws: seq<Write>)
    requires forall d :: d in rows ==> OwnWrites(vs, d) == OwnWrites(ws, d)
    ensures AfterWrites(rows, vs) == AfterWrites(rows, ws)
  {
    hide AfterWrites;
    hide RowAfter;
    hide OwnWrites;
    if rows != map[] {
      forall d | d in rows ensures AfterWrites(rows, vs).Keys == rows.Keys == AfterWrites(rows, ws).Keys
        && AfterWrites(rows, vs)[d] == AfterWrites(rows, ws)[d]
      {
        OnlyOwnWritesMatter(rows, vs, d);
        OnlyOwnWritesMatter(rows, ws, d);
      }
    } else {
      NoRows(vs);
      NoRows(ws);
    }
  }

  lemma {:induction false} NoRows(ws: seq<Write>)
    ensures AfterWrites(map[], ws) == map[]
  {
    if ws != [] { NoRows(ws[..|ws| - 1]); }
  }

  lemma ClaimedMore(claims: seq<Claim>, c: Claim)
    ensures forall d :: IsClaimed(claims + [c], d) <==> IsClaimed(claims, d) || d == c.delivery
  {
    forall d ensures IsClaimed(claims + [c], d) <==> IsClaimed(claims, d) || d == c.delivery {
      assert (claims + [c])[|claims|] == c;
      if IsClaimed(claims, d) {
        var i :| 0 <= i < |claims| && claims[i].delivery == d;
        assert (claims + [c])[i] == claims[i];
      }
    }
  }

  lemma NoneClaimed(rows: map<DeliveryId, Row>, due: set<DeliveryId>)
    requires due <= rows.Keys
    ensures AfterClaims(rows, []) == rows && EarliestFirst([], due, rows)
    ensures forall d :: !IsClaimed([], d)
  {
  }

  /** What can be claimed: pending, at its time, for an enabled endpoint, and not locked by another worker. */
  lemma ClaimableIff(
      rows: map<DeliveryId, Row>, endpoints: map<EndpointId, Endpoint>, now: int, locked: set<DeliveryId>,
          d: DeliveryId)
    ensures d in DueRows(rows, Enabled(endpoints), now, locked)
       <==> d in rows && d !in locked && rows[d].status == Pending && rows[d].nextAttemptAt <= now
            && rows[d].endpoint in endpoints && endpoints[rows[d].endpoint].enabled
  {
  }

  lemma DueAreRows(rows: map<DeliveryId, Row>, endpoints: map<EndpointId, bool>, now: int, locked: set<DeliveryId>)
    ensures DueRows(rows, endpoints, now, locked) <= rows.Keys
  {
  }

  lemma SameKeys(rows: map<DeliveryId, Row>, claims: seq<Claim>)
    ensures AfterClaims(rows, claims).Keys == rows.Keys
  {
  }

  lemma RaisedAttempts(row: Row)
    ensures ClaimedRow(row).attempts == row.attempts + 1
  {
  }

  /** Claiming the earliest delivery that is left keeps everything the claim statement promises. */
  lemma ClaimOneMore(
      claims: seq<Claim>, d: DeliveryId, due: set<DeliveryId>, left: set<DeliveryId>, before: map<DeliveryId, Row>)
    requires left <= due <= before.Keys
    requires Earliest(d, left, AfterClaims(before, claims)) && EarliestFirst(claims, due, before)
    requires forall e :: e in due ==> (e in left <==> !IsClaimed(claims, e))
    ensures d in AfterClaims(before, claims)
    ensures var more := claims + [Claim(d, before[d].attempts + 1)];
            && AfterClaims(before, claims)[d] == before[d]
            && EarliestFirst(more, due, before)
            && AfterClaims(before, more) == AfterClaims(before, claims)[d := ClaimedRow(before[d])]
            && (forall e :: e in due ==> (e in left - {d} <==> !IsClaimed(more, e)))
  {
    var c := Claim(d, before[d].attempts + 1);
    var more := claims + [c];
    ClaimedMore(claims, c);
    forall i, e | 0 <= i < |more| && e in due && !IsClaimed(more[..i], e)
      ensures before[more[i].delivery].nextAttemptAt <= before[e].nextAttemptAt
    {
      assert more[..i] == claims[..i];
      if i == |claims| {
        assert claims[..i] == claims;
        assert AfterClaims(before, claims)[e] == before[e];
      }
    }
  }

  /**
   A pass writes to each claimed delivery what its own attempt writes, with the attempt number of
   its claim, and leaves every other row as it was.
   */
  lemma {:induction false} EachClaimReportedOnce(
      rows: map<DeliveryId, Row>, claims: seq<Claim>, courses: DeliveryId -> Course, d: DeliveryId)
    requires forall i, j :: 0 <= i < j < |claims| ==> claims[i].delivery != claims[j].delivery
    requires d in rows
    ensures AfterWrites(rows, WritesOfAll(claims, courses)).Keys == rows.Keys
    ensures !IsClaimed(claims, d) ==> AfterWrites(rows, WritesOfAll(claims, courses))[d] == rows[d]
    ensures forall i :: 0 <= i < |claims| && claims[i].delivery == d
              ==> AfterWrites(rows, WritesOfAll(claims, courses))[d]
                  == RowAfter(rows[d], WritesOf(claims[i], courses(d)))
  {
    hide AfterWrites;
    hide RowAfter;
    OnlyOwnWritesMatter(rows, WritesOfAll(claims, courses), d);
    OwnWritesOfAll(claims, courses, d);
    NothingWritten(rows[d]);
  }

  lemma NothingWritten(row: Row)
    ensures RowAfter(row, []) == row
  {
  }

  lemma {:induction false} OwnWritesOfAll(claims: seq<Claim>, courses: DeliveryId -> Course, d: DeliveryId)
    requires forall i, j :: 0 <= i < j < |claims| ==> claims[i].delivery != claims[j].delivery
    ensures !IsClaimed(claims, d) ==> OwnWrites(WritesOfAll(claims, courses), d) == []
    ensures forall i :: 0 <= i < |claims| && claims[i].delivery == d
              ==> OwnWrites(WritesOfAll(claims, courses), d) == WritesOf(claims[i], courses(d))
  {
    if claims != [] {
      var init, c := claims[..|claims| - 1], claims[|claims| - 1];
      OwnWritesOfAll(init, courses, d);
      assert claims == init + [c];
      ClaimedMore(init, c);
      hide WritesOf;
      OwnWritesAppend(WritesOfAll(init, courses), WritesOf(c, courses(c.delivery)), d);
      OwnWritesOfOne(c, courses(c.delivery), d);
    }
  }

  lemma {:induction false} OwnWritesAppend(vs: seq<Write>, ws: seq<Write>, d: DeliveryId)
    ensures OwnWrites(vs + ws, d) == OwnWrites(vs, d) + OwnWrites(ws, d)
  {
    if ws == [] {
      assert vs + ws == vs;
    } else {
      OwnWritesAppend(vs, ws[..|ws| - 1], d);
      assert (vs + ws)[..|vs + ws| - 1] == vs + ws[..|ws| - 1];
    }
  }

  lemma OwnWritesOfOne(c: Claim, course: Course, d: DeliveryId)
    ensures OwnWrites(WritesOf(c, course), d) == if c.delivery == d then WritesOf(c, course) else []
  {
    var report := ReportWrite(c, course.outcome, course.first, course.reportAt);
    var caught := CatchWrite(c, course.second, course.catchAt);
    assert [report][..0] == [] && ([report] + [caught])[..1] == [report];
    assert OwnWrites([report], d) == if c.delivery == d then [report] else [];
  }
}
