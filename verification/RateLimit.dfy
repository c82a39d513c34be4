/**
 The fixed-window rate limiter: the in-memory fallback with its lazy sweep and the Redis counter
 with its expiry, both against simply counting the requests of the window. Times are
 milliseconds; a window is a positive number of seconds.
 */
module RateLimit {
  import opened Options
  import opened Text

  datatype Request = Request(id: string, at: nat)

  function WindowMs(window: nat): nat { window * 1000 }

  function BucketOf(at: nat, window: nat): nat
    requires window > 0
  {
    Quotient(at, WindowMs(window))
  }

  function Quotient(a: nat, b: nat): nat
    requires b > 0
  {
    a / b
  }

  /** How many requests of the history fall into one client's window. */
  function CountIn(history: seq<Request>, id: string, bucket: nat, window: nat): nat
    requires window > 0
  {
    if history == [] then 0
    else
      var r := history[|history| - 1];
      CountIn(history[..|history| - 1], id, bucket, window)
          + (if r.id == id && BucketOf(r.at, window) == bucket then 1 else 0)
  }

  function WindowEnd(bucket: nat, window: nat): nat { (bucket + 1) * WindowMs(window) }

  lemma WindowEndIs(bucket: nat, window: nat)
    ensures (bucket + 1) * window * 1000 == WindowEnd(bucket, window)
  {
  }

  lemma BucketBounds(at: nat, window: nat)
    requires window > 0
    ensures BucketOf(at, window) * WindowMs(window) <= at < WindowEnd(BucketOf(at, window), window)
  {
    var w := WindowMs(window);
    assert at == w * Quotient(at, w) + at % w;
  }

  /** A request falls into a later window than any window that has ended by then. */
  lemma BucketAfterEnd(at: nat, bucket: nat, window: nat)
    requires window > 0
    ensures at < WindowEnd(bucket, window) <==> BucketOf(at, window) <= bucket
  {
    BucketBounds(at, window);
    var b, w := BucketOf(at, window), WindowMs(window);
    if b <= bucket {
      MulMono(b + 1, bucket + 1, w);
    } else {
      MulMono(bucket + 1, b, w);
    }
  }

  lemma MulMono(a: nat, b: nat, w: nat)
    requires a <= b
    ensures a * w <= b * w
  {
  }

  // ---- keys -------------------------------------------------------------------------------

  function LocalKey(id: string, bucket: nat): string { id + ":" + NatToString(bucket) }

  function RedisKey(id: string, bucket: nat): string { "ratelimit:" + LocalKey(id, bucket) }

  /** Length of the trailing run of digits. */
  function DigitTail(s: string): nat { if s == "" || !IsDigit(s[|s| - 1]) then 0 else 1 + DigitTail(s[..|s| - 1]) }

  lemma {:induction false} DigitTailOf(head: string, digits: string)
    requires AllDigits(digits) && (head == "" || !IsDigit(head[|head| - 1]))
    ensures DigitTail(head + digits) == |digits|
  {
    if digits == "" {
      assert head + digits == head;
    } else {
      assert (head + digits)[..|head + digits| - 1] == head + digits[..|digits| - 1];
      DigitTailOf(head, digits[..|digits| - 1]);
    }
  }

  /** Two clients, or two windows of one client, never share a counter. */
  lemma KeyInjective(id: string, b: nat, id': string, b': nat)
    requires LocalKey(id, b) == LocalKey(id', b')
    ensures id == id' && b == b'
  {
    var k, n, n' := LocalKey(id, b), NatToString(b), NatToString(b');
    DigitTailOf(id + ":", n);
    DigitTailOf(id' + ":", n');
    assert k == (id + ":") + n && k == (id' + ":") + n';
    assert n == k[|k| - |n|..] && n' == k[|k| - |n|..];
    assert id == k[..|k| - |n| - 1] && id' == k[..|k| - |n| - 1];
    NumeralRoundTrip(b);
    NumeralRoundTrip(b');
  }

  lemma RedisKeyInjective(id: string, b: nat, id': string, b': nat)
    requires RedisKey(id, b) == RedisKey(id', b')
    ensures id == id' && b == b'
  {
    assert RedisKey(id, b)[10..] == LocalKey(id, b) && RedisKey(id', b')[10..] == LocalKey(id', b');
    KeyInjective(id, b, id', b');
  }

  // ---- the in-memory limiter ----------------------------------------------------------------

  datatype Bucket = Bucket(count: nat, expiresAt: nat)

  predicate Hits(r: Request, id: string, bucket: nat, window: nat)
    requires window > 0
  {
    r.id == id && BucketOf(r.at, window) == bucket
  }

  /** The requests of one client's window that the table still counts: a clock at or past its end drops them. */
  function Kept(history: seq<Request>, id: string, bucket: nat, window: nat): nat
    requires window > 0
  {
    if history == [] then 0
    else
      var r := history[|history| - 1];
      if r.at >= WindowEnd(bucket, window) then 0
      else Kept(history[..|history| - 1], id, bucket, window) + (if Hits(r, id, bucket, window) then 1 else 0)
  }

  /** What the table says about one client's window. */
  predicate Tracks(buckets: map<string, Bucket>, kept: nat, id: string, bucket: nat, window: nat) {
    var key := LocalKey(id, bucket);
    && (key in buckets ==> buckets[key].expiresAt == WindowEnd(bucket, window))
    && (if key in buckets then buckets[key].count else 0) == kept
  }

  ghost predicate TracksAll(buckets: map<string, Bucket>, history: seq<Request>, window: nat)
    requires window > 0
  {
    forall id, bucket :: Tracks(buckets, Kept(history, id, bucket, window), id, bucket, window)
  }

  /** What the sweep at `now` leaves of it. */
  function Left(history: seq<Request>, id: string, bucket: nat, window: nat, now: nat): nat
    requires window > 0
  {
    if now >= WindowEnd(bucket, window) then 0 else Kept(history, id, bucket, window)
  }

  ghost predicate Swept(buckets: map<string, Bucket>, history: seq<Request>, window: nat, now: nat)
    requires window > 0
  {
    forall id, bucket :: Tracks(buckets, Left(history, id, bucket, window, now), id, bucket, window)
  }

  class LocalLimiter {
    const window: nat
    var buckets: map<string, Bucket>
    ghost var history: seq<Request>

    ghost predicate Valid()
      reads this
    {
      window > 0 && TracksAll(buckets, history, window)
    }

    constructor (window: nat)
      requires window > 0
      ensures Valid() && this.window == window && history == []
    {
      this.window := window;
      buckets, history := map[], [];
    }

    /** Whatever the clock does, the swept table answers by the requests it has not dropped. */
    method UnderLimitLocal(id: string, max: nat, now: nat) returns (allowed: bool)
      requires Valid()
      modifies this
      ensures Valid() && history == old(history) + [Request(id, now)]
      ensures allowed <==> Kept(history, id, BucketOf(now, window), window) <= max
      ensures forall k :: k in buckets ==> buckets[k].expiresAt > now
    {
      hide BucketOf;
      hide WindowEnd;
      var bucket := BucketOf(now, window);
      var key := LocalKey(id, bucket);

      var todo := buckets.Keys;
      ghost var before := buckets;
      while todo != {}
        invariant history == old(history)
        invariant todo <= before.Keys && buckets.Keys <= before.Keys
        invariant forall k :: k in buckets ==> buckets[k] == before[k]
        invariant forall k :: k in before && k !in buckets ==> before[k].expiresAt <= now
        invariant forall k :: k in buckets && k !in todo ==> buckets[k].expiresAt > now
        decreases todo
      {
        var k :| k in todo;
        todo := todo - {k};
        if k in buckets && buckets[k].expiresAt <= now { buckets := buckets - {k}; }
      }
      SweepDropsEndedWindows(before, buckets, history, window, now);

      var entry := if key in buckets then buckets[key] else Bucket(0, (bucket + 1) * window * 1000);
      entry := entry.(count := entry.count + 1);
      assert Tracks(buckets, Left(history, id, bucket, window, now), id, bucket, window);
      WindowEndIs(bucket, window);
      BucketAfterEnd(now, bucket, window);
      EntryCounts(buckets, entry, history, id, window, now);
      buckets := buckets[key := entry];
      history := history + [Request(id, now)];
      assert Tracks(buckets, Kept(history, id, bucket, window), id, bucket, window);
      return entry.count <= max;
    }
  }

  lemma SweepDropsEndedWindows(
      before: map<string, Bucket>, after: map<string, Bucket>, history: seq<Request>, window: nat, now: nat)
    requires window > 0 && TracksAll(before, history, window)
    requires after.Keys <= before.Keys && forall k :: k in after ==> after[k] == before[k] && after[k].expiresAt > now
    requires forall k :: k in before && k !in after ==> before[k].expiresAt <= now
    ensures Swept(after, history, window, now)
  {
    hide Kept;
    hide WindowEnd;
    hide LocalKey;
    forall id, bucket ensures Tracks(after, Left(history, id, bucket, window, now), id, bucket, window) {
      assert Tracks(before, Kept(history, id, bucket, window), id, bucket, window);
    }
  }

  lemma KeptMore(history: seq<Request>, r: Request, id: string, bucket: nat, window: nat)
    requires window > 0
    ensures Kept(history + [r], id, bucket, window)
            == if r.at >= WindowEnd(bucket, window) then 0
               else Kept(history, id, bucket, window) + (if Hits(r, id, bucket, window) then 1 else 0)
  {
    assert (history + [r])[..|history|] == history;
  }

  lemma EntryCounts(
      buckets: map<string, Bucket>, entry: Bucket, history: seq<Request>, id: string, window: nat, now: nat)
    requires window > 0 && Swept(buckets, history, window, now)
    requires var key := LocalKey(id, BucketOf(now, window));
             entry == Bucket((if key in buckets then buckets[key].count else 0) + 1,
                 WindowEnd(BucketOf(now, window), window))
    ensures TracksAll(buckets[LocalKey(id, BucketOf(now, window)) := entry], history + [Request(id, now)], window)
  {
    var r := Request(id, now);
    var after := buckets[LocalKey(id, BucketOf(now, window)) := entry];
    hide Kept;
    hide LocalKey;
    hide BucketOf;
    hide WindowEnd;
    forall id', bucket'
      ensures Tracks(after, Kept(history + [r], id', bucket', window), id', bucket', window)
    {
      assert Tracks(buckets, Left(history, id', bucket', window, now), id', bucket', window);
      KeptMore(history, r, id', bucket', window);
      BucketAfterEnd(now, BucketOf(now, window), window);
      BucketAfterEnd(now, bucket', window);
      if LocalKey(id', bucket') == LocalKey(id, BucketOf(now, window)) {
        KeyInjective(id', bucket', id, BucketOf(now, window));
      }
    }
  }

  lemma CountMore(history: seq<Request>, r: Request, id: string, bucket: nat, window: nat)
    requires window > 0
    ensures CountIn(history + [r], id, bucket, window)
            == CountIn(history, id, bucket, window) + (if r.id == id && BucketOf(r.at, window) == bucket then 1 else 0)
  {
    assert (history + [r])[..|history|] == history;
  }

  // ---- when the table counts right ----------------------------------------------------------------

  /** A request came in at or past the end of the window after one of the window itself. */
  predicate Lapsed(history: seq<Request>, id: string, bucket: nat, window: nat)
    requires window > 0
  {
    exists i, j :: 0 <= i < j < |history| && Hits(history[i], id, bucket, window) && PastEnd(history[j], bucket, window)
  }

  predicate PastEnd(r: Request, bucket: nat, window: nat) { r.at >= WindowEnd(bucket, window) }

  lemma {:induction false} CountedIffHit(history: seq<Request>, id: string, bucket: nat, window: nat)
    requires window > 0
    ensures CountIn(history, id, bucket, window) > 0
       <==> exists i :: 0 <= i < |history| && Hits(history[i], id, bucket, window)
  {
    if history != [] {
      var init := history[..|history| - 1];
      CountedIffHit(init, id, bucket, window);
      hide BucketOf;
      if i :| 0 <= i < |init| && Hits(init[i], id, bucket, window) { assert Hits(history[i], id, bucket, window); }
      if i :| 0 <= i < |history| && Hits(history[i], id, bucket, window) {
        if i < |init| { assert Hits(init[i], id, bucket, window); }
      }
    }
  }

  /**
   The table counts all the requests of a window if and only if no request came in at or past the
   window's end after one of them; otherwise it counts fewer.
   */
  lemma {:induction false} LocalCountIsRightIff(history: seq<Request>, id: string, bucket: nat, window: nat)
    requires window > 0
    ensures Kept(history, id, bucket, window) <= CountIn(history, id, bucket, window)
    ensures Kept(history, id, bucket, window) == CountIn(history, id, bucket, window)
       <==> !Lapsed(history, id, bucket, window)
  {
    if history != [] {
      var n := |history| - 1;
      var init := history[..n];
      LocalCountIsRightIff(init, id, bucket, window);
      CountedIffHit(init, id, bucket, window);
      BucketAfterEnd(history[n].at, bucket, window);
      LapsedMore(init, history[n], id, bucket, window);
      assert history == init + [history[n]];
      hide Lapsed;
      hide WindowEnd;
      hide BucketOf;
    }
  }

  lemma LapsedMore(init: seq<Request>, r: Request, id: string, bucket: nat, window: nat)
    requires window > 0
    ensures Lapsed(init + [r], id, bucket, window)
       <==> Lapsed(init, id, bucket, window)
            || (PastEnd(r, bucket, window) && exists i :: 0 <= i < |init| && Hits(init[i], id, bucket, window))
  {
    var all := init + [r];
    hide Hits;
    hide PastEnd;
    if i, j :| 0 <= i < j < |init| && Hits(init[i], id, bucket, window) && PastEnd(init[j], bucket, window) {
      assert Hits(all[i], id, bucket, window) && PastEnd(all[j], bucket, window);
    }
    if i :| 0 <= i < |init| && Hits(init[i], id, bucket, window) {
      assert Hits(all[i], id, bucket, window) && all[|init|] == r;
    }
    if i, j :| 0 <= i < j < |all| && Hits(all[i], id, bucket, window) && PastEnd(all[j], bucket, window) {
      assert Hits(init[i], id, bucket, window);
      if j < |init| { assert PastEnd(init[j], bucket, window); }
    }
  }

  /** In particular it counts the window of a request right when the clock has never run back. */
  lemma SteadyClockCountsRight(history: seq<Request>, window: nat)
    requires window > 0 && history != []
    requires forall i, j :: 0 <= i < j < |history| ==> history[i].at <= history[j].at
    ensures var r := history[|history| - 1]; var bucket := BucketOf(r.at, window);
            Kept(history, r.id, bucket, window) == CountIn(history, r.id, bucket, window)
  {
    var r := history[|history| - 1];
    var bucket := BucketOf(r.at, window);
    LocalCountIsRightIff(history, r.id, bucket, window);
    BucketBounds(r.at, window);
    hide Kept;
    hide CountIn;
    hide BucketOf;
    hide WindowEnd;
    assert forall j :: 0 <= j < |history| ==> !PastEnd(history[j], bucket, window);
  }

  /** A clock that reads a later window once and then steps back makes the window start from one again. */
  lemma StepBackRestartsTheCount(id: string, other: string, bucket: nat, window: nat)
    requires window > 0
    ensures var start := bucket * WindowMs(window);
            var history := [Request(id, start), Request(other, WindowEnd(bucket, window)), Request(id, start)];
            BucketOf(start, window) == bucket
            && Kept(history, id, bucket, window) == 1 && CountIn(history, id, bucket, window) == 2
  {
    HitsOfExample(id, other, bucket, window);
    hide *;
    Counts(id, bucket, window, Request(id, bucket * WindowMs(window)), Request(other, WindowEnd(bucket, window)));
  }

  lemma Counts(id: string, bucket: nat, window: nat, a: Request, b: Request)
    requires window > 0 && Hits(a, id, bucket, window) && !Hits(b, id, bucket, window)
    requires a.at < WindowEnd(bucket, window) <= b.at
    ensures Kept([a, b, a], id, bucket, window) == 1 && CountIn([a, b, a], id, bucket, window) == 2
  {
    hide WindowEnd;
    hide WindowMs;
    hide BucketOf;
    assert [a, b, a] == [a, b] + [a] && [a, b] == [a] + [b] && [a] == [] + [a];
    KeptMore([a, b], a, id, bucket, window);
    KeptMore([a], b, id, bucket, window);
    CountMore([a, b], a, id, bucket, window);
    CountMore([a], b, id, bucket, window);
    CountMore([], a, id, bucket, window);
  }

  lemma HitsOfExample(id: string, other: string, bucket: nat, window: nat)
    requires window > 0
    ensures var start, end := bucket * WindowMs(window), WindowEnd(bucket, window);
            && start < end && BucketOf(start, window) == bucket && BucketOf(end, window) != bucket
            && Hits(Request(id, start), id, bucket, window) && !Hits(Request(other, end), id, bucket, window)
  {
    InBucket(bucket * WindowMs(window), bucket, window);
    InBucket(WindowEnd(bucket, window), bucket, window);
    hide BucketOf;
  }

  // ---- how much a window, and any interval of a window's length, lets through ---------------

  predicate Admitted(history: seq<Request>, i: nat, max: nat, window: nat)
    requires window > 0 && i < |history|
  {
    CountIn(history[..i + 1], history[i].id, BucketOf(history[i].at, window), window) <= max
  }

  function AdmittedIn(history: seq<Request>, id: string, lo: nat, hi: nat, max: nat, window: nat): nat
    requires window > 0
  {
    if history == [] then 0
    else
      var n := |history| - 1;
      AdmittedIn(history[..n], id, lo, hi, max, window)
      + (if history[n].id == id && lo <= history[n].at < hi && Admitted(history, n, max, window) then 1 else 0)
  }

  function Min(a: nat, b: nat): nat { if a < b then a else b }

  /** A window admits its first `max` requests and no other. */
  lemma {:induction false} WindowAdmitsExactlyMax(history: seq<Request>, id: string, bucket: nat, max: nat, window: nat)
    requires window > 0
    ensures AdmittedIn(history, id, bucket * WindowMs(window), WindowEnd(bucket, window), max, window)
            == Min(CountIn(history, id, bucket, window), max)
  {
    if history != [] {
      var n := |history| - 1;
      WindowAdmitsExactlyMax(history[..n], id, bucket, max, window);
      assert history[..n + 1] == history;
      InBucket(history[n].at, bucket, window);
    }
  }

  lemma InBucket(at: nat, bucket: nat, window: nat)
    requires window > 0
    ensures bucket * WindowMs(window) <= at < WindowEnd(bucket, window) <==> BucketOf(at, window) == bucket
  {
    BucketAfterEnd(at, bucket, window);
    BucketBounds(at, window);
    if bucket > 0 { BucketAfterEnd(at, bucket - 1, window); }
  }

  lemma {:induction false} AdmittedSplits(
      history: seq<Request>, id: string, lo: nat, mid: nat, hi: nat, lo': nat, hi': nat, max: nat, window: nat)
    requires window > 0 && lo <= lo' && hi' <= hi && lo <= mid <= hi
    ensures AdmittedIn(history, id, lo', hi', max, window)
            <= AdmittedIn(history, id, lo, mid, max, window) + AdmittedIn(history, id, mid, hi, max, window)
  {
    if history != [] { AdmittedSplits(history[..|history| - 1], id, lo, mid, hi, lo', hi', max, window); }
  }

  /** Any stretch of time as long as a window admits at most twice the limit. */
  lemma AnyWindowLengthAdmitsTwiceMax(history: seq<Request>, id: string, start: nat, max: nat, window: nat)
    requires window > 0
    ensures AdmittedIn(history, id, start, start + WindowMs(window), max, window) <= 2 * max
  {
    var b, w := BucketOf(start, window), WindowMs(window);
    BucketBounds(start, window);
    assert WindowEnd(b, window) == (b + 1) * w && WindowEnd(b + 1, window) == (b + 1) * w + w;
    AdmittedSplits(history, id, b * w, (b + 1) * w, (b + 1) * w + w, start, start + w, max, window);
    WindowAdmitsExactlyMax(history, id, b, max, window);
    WindowAdmitsExactlyMax(history, id, b + 1, max, window);
  }

  // ---- the Redis counter ----------------------------------------------------------------------

  datatype Counter = Counter(count: nat, expiresAt: Option<nat>)

  /**
   Commands of many processes in the order Redis serves them, at the time of Redis's clock. The window
   was picked earlier, by the clock of the process. The EXPIRE after a first hit may never come.
   */
  datatype Command = Incr(id: string, bucket: nat, at: nat) | Expire(id: string, bucket: nat, at: nat)

  /** The counters, and the keys for which a first hit was answered but no expiry set yet. */
  datatype RedisState = RedisState(counters: map<string, Counter>, owed: multiset<string>)

  predicate Alive(c: Counter, now: nat) { c.expiresAt.None? || c.expiresAt.value > now }

  function Answer(s: RedisState, key: string, now: nat): nat {
    if key in s.counters && Alive(s.counters[key], now) then s.counters[key].count else 0
  }

  function Apply(s: RedisState, command: Command, window: nat): RedisState {
    var key := RedisKey(command.id, command.bucket);
    match command
    case Incr(_, _, at) =>
      if key in s.counters && Alive(s.counters[key], at)
      then s.(counters := s.counters[key := s.counters[key].(count := s.counters[key].count + 1)])
      else RedisState(s.counters[key := Counter(1, None)], s.owed + multiset{key})
    case Expire(_, _, at) =>
      if key !in s.owed then s
      else if key in s.counters && Alive(s.counters[key], at) then
        var timed := s.counters[key].(expiresAt := Some(at + WindowMs(window)));
        RedisState(s.counters[key := timed], s.owed - multiset{key})
      else s.(owed := s.owed - multiset{key})
  }

  function Exec(run: seq<Command>, window: nat): RedisState {
    if run == [] then RedisState(map[], multiset{})
    else Apply(Exec(run[..|run| - 1], window), run[|run| - 1], window)
  }

  /** Redis's own clock never runs back; the clocks of the processes are free. */
  predicate Timed(run: seq<Command>) { forall i, j :: 0 <= i < j < |run| ==> run[i].at <= run[j].at }

  predicate Concerns(command: Command, id: string, bucket: nat) { command.id == id && command.bucket == bucket }

  /** How many requests of this client in this window have reached Redis. */
  function Served(run: seq<Command>, id: string, bucket: nat): nat {
    if run == [] then 0
    else
      var last := run[|run| - 1];
      Served(run[..|run| - 1], id, bucket) + (if last.Incr? && Concerns(last, id, bucket) then 1 else 0)
  }

  /** When the expiry of the window's key was first set. */
  function FirstExpire(run: seq<Command>, id: string, bucket: nat): Option<nat> {
    if run == [] then None
    else
      var init, last := run[..|run| - 1], run[|run| - 1];
      if FirstExpire(init, id, bucket).Some? then FirstExpire(init, id, bucket)
      else if last.Expire? && Concerns(last, id, bucket) && Served(init, id, bucket) > 0 then Some(last.at)
      else None
  }

  /** At `now` a whole window length has gone by since the key was first given its expiry. */
  predicate RunOut(run: seq<Command>, id: string, bucket: nat, window: nat, now: nat) {
    FirstExpire(run, id, bucket).Some? && FirstExpire(run, id, bucket).value + WindowMs(window) <= now
  }

  /** Some request of the window reached Redis only after the key had run out. */
  predicate Late(run: seq<Command>, id: string, bucket: nat, window: nat) {
    run != []
    && (Late(run[..|run| - 1], id, bucket, window)
        || (run[|run| - 1].Incr? && Concerns(run[|run| - 1], id, bucket)
            && RunOut(run[..|run| - 1], id, bucket, window, run[|run| - 1].at)))
  }

  /** The counter and the owed expiries of a key after `n` hits, of which some came late. */
  predicate Holds(s: RedisState, key: string, n: nat, first: Option<nat>, late: bool, window: nat) {
    if n == 0 then key !in s.counters && s.owed[key] == 0 && first.None? && !late
    else
      && key in s.counters
      && (if first.None? then s.counters[key] == Counter(n, None) && s.owed[key] == 1 && !late
          else if late then 1 <= s.counters[key].count < n
          else s.counters[key] == Counter(n, Some(first.value + WindowMs(window))) && s.owed[key] == 0)
  }

  /** What the key holds after a run, from the times of the commands alone. */
  predicate KeyRight(run: seq<Command>, id: string, bucket: nat, window: nat) {
    var late := Late(run, id, bucket, window);
    && Holds(Exec(run, window), RedisKey(id, bucket), Served(run, id, bucket), FirstExpire(run, id, bucket), late,
        window)
    && (late ==> run != [] && RunOut(run, id, bucket, window, run[|run| - 1].at))
  }

  /** The last command of a run, seen from one key. */
  lemma Unfolds(run: seq<Command>, id: string, bucket: nat, window: nat)
    requires run != []
    ensures var init, last := run[..|run| - 1], run[|run| - 1]; var mine := Concerns(last, id, bucket);
            && Served(run, id, bucket) == Served(init, id, bucket) + (if last.Incr? && mine then 1 else 0)
            && (Late(run, id, bucket, window)
                <==> Late(init, id, bucket, window)
                     || (last.Incr? && mine && RunOut(init, id, bucket, window, last.at)))
            && FirstExpire(run, id, bucket)
               == (if FirstExpire(init, id, bucket).Some? then FirstExpire(init, id, bucket)
                   else if last.Expire? && mine && Served(init, id, bucket) > 0 then Some(last.at) else None)
            && Exec(run, window) == Apply(Exec(init, window), last, window)
  {
  }

  lemma OtherKeyKept(s: RedisState, command: Command, id: string, bucket: nat, window: nat)
    requires !Concerns(command, id, bucket)
    ensures var key, after := RedisKey(id, bucket), Apply(s, command, window);
            && (key in after.counters <==> key in s.counters)
            && (key in s.counters ==> after.counters[key] == s.counters[key])
            && after.owed[key] == s.owed[key]
  {
    if RedisKey(command.id, command.bucket) == RedisKey(id, bucket) {
      RedisKeyInjective(command.id, command.bucket, id, bucket);
      assert false;
    }
    hide RedisKey;
  }

  lemma HitKeeps(s: RedisState, c: Command, n: nat, first: Option<nat>, late: bool, window: nat)
    requires c.Incr? && Holds(s, RedisKey(c.id, c.bucket), n, first, late, window)
    ensures var ranOut := first.Some? && first.value + WindowMs(window) <= c.at;
            Holds(Apply(s, c, window), RedisKey(c.id, c.bucket), n + 1, first, late || ranOut, window)
  {
    hide RedisKey;
    hide WindowMs;
  }

  lemma ExpireKeeps(s: RedisState, c: Command, n: nat, first: Option<nat>, late: bool, window: nat)
    requires c.Expire? && Holds(s, RedisKey(c.id, c.bucket), n, first, late, window)
    ensures var first' := if first.None? && n > 0 then Some(c.at) else first;
            Holds(Apply(s, c, window), RedisKey(c.id, c.bucket), n, first', late, window)
  {
    hide RedisKey;
    hide WindowMs;
  }

  lemma OtherKeeps(
      s: RedisState, c: Command, id: string, bucket: nat, n: nat, first: Option<nat>, late: bool, window: nat)
    requires !Concerns(c, id, bucket) && Holds(s, RedisKey(id, bucket), n, first, late, window)
    ensures Holds(Apply(s, c, window), RedisKey(id, bucket), n, first, late, window)
  {
    OtherKeyKept(s, c, id, bucket, window);
    hide Apply;
    hide RedisKey;
  }

  lemma {:induction false} KeysAlwaysRight(run: seq<Command>, id: string, bucket: nat, window: nat)
    requires Timed(run)
    ensures KeyRight(run, id, bucket, window)
    ensures Served(run, id, bucket) == 0 ==> FirstExpire(run, id, bucket).None?
  {
    if run != [] {
      var init, last := run[..|run| - 1], run[|run| - 1];
      assert init != [] ==> init[|init| - 1].at <= last.at;
      KeysAlwaysRight(init, id, bucket, window);
      Unfolds(run, id, bucket, window);
      var n, first, late := Served(init, id, bucket), FirstExpire(init, id, bucket), Late(init, id, bucket, window);
      var before := Exec(init, window);
      hide Served;
      hide FirstExpire;
      hide Late;
      hide Exec;
      hide Holds;
      hide Apply;
      hide WindowMs;
      if !Concerns(last, id, bucket) {
        OtherKeeps(before, last, id, bucket, n, first, late, window);
      } else if last.Incr? {
        HitKeeps(before, last, n, first, late, window);
      } else {
        ExpireKeeps(before, last, n, first, late, window);
      }
    }
  }

  /**
   Redis answers a request with the number of the client's requests in that window so far, unless it
   is served a whole window length after the key first got its expiry; then the answer is lower.
   */
  lemma CountIsRightIff(run: seq<Command>, window: nat)
    requires Timed(run) && run != [] && run[|run| - 1].Incr?
    ensures var r := run[|run| - 1]; var key := RedisKey(r.id, r.bucket);
            && 1 <= Answer(Exec(run, window), key, r.at) <= Served(run, r.id, r.bucket)
            && (Answer(Exec(run, window), key, r.at) == Served(run, r.id, r.bucket)
                <==> !RunOut(run, r.id, r.bucket, window, r.at))
  {
    var r := run[|run| - 1];
    KeysAlwaysRight(run, r.id, r.bucket, window);
    Unfolds(run, r.id, r.bucket, window);
    hide Served;
    hide FirstExpire;
    hide Late;
    hide RedisKey;
    hide WindowMs;
    JustServed(Exec(run[..|run| - 1], window), r, window);
  }

  lemma JustServed(s: RedisState, r: Command, window: nat)
    requires r.Incr?
    ensures var key, after := RedisKey(r.id, r.bucket), Apply(s, r, window);
            key in after.counters && Answer(after, key, r.at) == after.counters[key].count >= 1
  {
    hide RedisKey;
  }

  /**
   The expiry never clears a window that is still open by Redis's clock, provided that clock had
   reached the window when the expiry was set.
   */
  lemma ExpiryNeverClearsALiveWindow(run: seq<Command>, window: nat)
    requires Timed(run) && run != [] && run[|run| - 1].Incr?
    requires run[|run| - 1].at < WindowEnd(run[|run| - 1].bucket, window)
    requires forall c :: c in run && c.Expire? && Concerns(c, run[|run| - 1].id, run[|run| - 1].bucket)
               ==> run[|run| - 1].bucket * WindowMs(window) <= c.at
    ensures var r := run[|run| - 1];
            Answer(Exec(run, window), RedisKey(r.id, r.bucket), r.at) == Served(run, r.id, r.bucket)
  {
    var r := run[|run| - 1];
    hide *;
    CountIsRightIff(run, window);
    NotRunOut(run, r.id, r.bucket, window, r.at);
  }

  lemma NotRunOut(run: seq<Command>, id: string, bucket: nat, window: nat, now: nat)
    requires now < WindowEnd(bucket, window)
    requires forall c :: c in run && c.Expire? && Concerns(c, id, bucket) ==> bucket * WindowMs(window) <= c.at
    ensures !RunOut(run, id, bucket, window, now)
  {
    assert WindowEnd(bucket, window) == bucket * WindowMs(window) + WindowMs(window);
    hide FirstExpire;
    hide WindowMs;
    hide WindowEnd;
    hide Concerns;
    if FirstExpire(run, id, bucket).Some? {
      var c := ExpireWasServed(run, id, bucket);
    }
  }

  lemma {:induction false} ExpireWasServed(run: seq<Command>, id: string, bucket: nat) returns (c: Command)
    requires FirstExpire(run, id, bucket).Some?
    ensures c in run && c.Expire? && Concerns(c, id, bucket) && FirstExpire(run, id, bucket) == Some(c.at)
  {
    var init := run[..|run| - 1];
    if FirstExpire(init, id, bucket).Some? {
      c := ExpireWasServed(init, id, bucket);
    } else {
      c := run[|run| - 1];
    }
  }

  /** A request held up for a window length is counted from one again, so a window can admit more than its limit. */
  lemma HeldUpRequestRestartsTheCount(id: string, bucket: nat, start: nat, window: nat)
    requires window > 0
    ensures var run := [Incr(id, bucket, start), Expire(id, bucket, start), Incr(id, bucket, start + WindowMs(window))];
            && Timed(run) && Served(run, id, bucket) == 2
            && Answer(Exec(run, window), RedisKey(id, bucket), start + WindowMs(window)) == 1
  {
    var run := [Incr(id, bucket, start), Expire(id, bucket, start), Incr(id, bucket, start + WindowMs(window))];
    assert run[..2] == [Incr(id, bucket, start), Expire(id, bucket, start)];
    assert run[..2][..1] == [Incr(id, bucket, start)] && run[..2][..1][..0] == [];
    Unfolds(run, id, bucket, window);
    Unfolds(run[..2], id, bucket, window);
    Unfolds(run[..2][..1], id, bucket, window);
    hide RedisKey;
  }
}
