/**
 What a listing sees over whole runs of `SessionIndex`: exactly when a session is found through
 its user's index set, when that is the same as scanning all sessions, and what a listing that
 other commands interrupt may show.
 */
module SessionListing {
  import opened Options
  import opened SessionIndex

  // ---- one step ---------------------------------------------------------------------------

  /** The token was handed out and its SADD has run, or never will. */
  predicate PastSadd(s: State, t: Token) { t in s.owner && !(t in s.creating && s.creating[t].Stored?) }

  lemma MemberBySadd(s: State, token: Token, ttl: nat, t: Token)
    requires PastSadd(s, t)
    ensures var s' := Apply(s, CreateSadd(token), ttl); var u := s.owner[t];
      t in Smembers(s'.index, u, s'.now) <==> t in Smembers(s.index, u, s.now) && SetLive(s'.index, u, s'.now)
  {
  }

  lemma MemberBySrem(s: State, p: Pid, ttl: nat, t: Token)
    requires DeadSeenDead(s) && t in s.owner && Live(s, t)
    ensures var s' := Apply(s, Srem(p), ttl); var u := s.owner[t];
      t in Smembers(s'.index, u, s'.now) <==> t in Smembers(s.index, u, s.now) && SetLive(s'.index, u, s'.now)
  {
    if p in s.procs && s.procs[p].Removing? && t in Smembers(s.index, s.owner[t], s.now) {
      assert t !in SeenDead(s.procs[p]);
      SremKeeps(s.index, s.procs[p].user, s.procs[p].tokens, s.now, s.owner[t], t);
    }
  }

  lemma MemberByOthers(s: State, step: Step, ttl: nat, t: Token)
    requires t in s.owner && !step.CreateSadd? && !step.Srem?
    ensures var s' := Apply(s, step, ttl); var u := s.owner[t];
      t in Smembers(s'.index, u, s'.now) <==> t in Smembers(s.index, u, s.now) && SetLive(s'.index, u, s'.now)
  {
  }

  /** A live session stays a member of its index set exactly as long as the set lives. */
  lemma MemberStep(s: State, step: Step, ttl: nat, t: Token)
    requires DeadSeenDead(s) && PastSadd(s, t) && Live(Apply(s, step, ttl), t)
    ensures var s' := Apply(s, step, ttl); var u := s.owner[t];
      t in Smembers(s'.index, u, s'.now) <==> t in Smembers(s.index, u, s.now) && SetLive(s'.index, u, s'.now)
  {
    if step.CreateSadd? {
      MemberBySadd(s, step.token, ttl, t);
    } else if step.Srem? {
      if !Live(s, t) {
        DeadForGood(s, step, ttl, t);
        assert false;
      }
      MemberBySrem(s, step.pid, ttl, t);
    } else {
      MemberByOthers(s, step, ttl, t);
    }
  }

  lemma PastSaddStays(s: State, step: Step, ttl: nat, t: Token)
    requires PastSadd(s, t)
    ensures PastSadd(Apply(s, step, ttl), t) && Apply(s, step, ttl).owner[t] == s.owner[t]
  {
  }

  // ---- runs ---------------------------------------------------------------------------------

  /** The state before step `i`. */
  function Before(steps: seq<Step>, i: nat, ttl: nat): State
    requires i <= |steps|
  {
    Exec(steps[..i], ttl)
  }

  /** Step `i` adds the token to its user's index set. */
  predicate RegistersAt(steps: seq<Step>, ttl: nat, t: Token, i: nat) {
    i < |steps| && steps[i] == CreateSadd(t)
    && var s := Before(steps, i, ttl); t in s.creating && s.creating[t].Stored? && t in s.owner
  }

  /** The user's index set is there before step `j`, and the token is in it. */
  predicate SetThere(steps: seq<Step>, ttl: nat, u: UserId, j: nat)
    requires j <= |steps|
  {
    SetLive(Before(steps, j, ttl).index, u, Before(steps, j, ttl).now)
  }

  predicate FoundAt(steps: seq<Step>, ttl: nat, u: UserId, t: Token, j: nat)
    requires j <= |steps|
  {
    t in Smembers(Before(steps, j, ttl).index, u, Before(steps, j, ttl).now)
  }

  /** The user's index set is there in every state after step `i` up to that before step `j`. */
  predicate SetThereUntil(steps: seq<Step>, ttl: nat, u: UserId, i: nat, j: nat)
    requires j <= |steps|
  {
    forall k :: i < k <= j ==> SetThere(steps, ttl, u, k)
  }

  /** It is there in every state after step `i`. */
  predicate SetLivedSince(steps: seq<Step>, ttl: nat, u: UserId, i: nat) { SetThereUntil(steps, ttl, u, i, |steps|) }

  lemma StepAt(steps: seq<Step>, i: nat, ttl: nat)
    requires i < |steps|
    ensures Before(steps, i + 1, ttl) == Apply(Before(steps, i, ttl), steps[i], ttl)
  {
    assert steps[..i + 1][..i] == steps[..i];
  }

  lemma Whole(steps: seq<Step>, ttl: nat)
    ensures Before(steps, |steps|, ttl) == Exec(steps, ttl)
  {
    assert steps[..|steps|] == steps;
  }

  /** While it is live at the end, a session was live all the time from its creation on. */
  lemma LiveBefore(steps: seq<Step>, j: nat, ttl: nat, t: Token)
    requires j <= |steps| && Live(Exec(steps, ttl), t) && t in Before(steps, j, ttl).owner
    ensures Live(Before(steps, j, ttl), t)
  {
    assert steps[..j] + steps[j..] == steps;
    hide Exec;
    hide Live;
    if !Live(Before(steps, j, ttl), t) { StaysDead(steps[..j], steps[j..], ttl, t); }
  }

  lemma RegistrationAdds(s: State, ttl: nat, t: Token)
    requires t in s.creating && s.creating[t].Stored? && t in s.owner
    ensures var s' := Apply(s, CreateSadd(t), ttl);
      PastSadd(s', t) && s'.owner == s.owner && SetLive(s'.index, s.owner[t], s'.now)
      && t in Smembers(s'.index, s.owner[t], s'.now)
  {
  }

  /** Up to step `j`: the session is a member exactly when its set has lived ever since the SADD. */
  lemma {:induction false} MemberUpTo(steps: seq<Step>, ttl: nat, t: Token, u: UserId, i: nat, j: nat)
    requires RegistersAt(steps, ttl, t, i) && Before(steps, i, ttl).owner[t] == u
    requires i < j <= |steps| && Live(Before(steps, j, ttl), t)
    ensures FoundAt(steps, ttl, u, t, j) <==> SetThereUntil(steps, ttl, u, i, j)
    decreases j
  {
    if j == i + 1 {
      FoundFirst(steps, ttl, t, u, i);
    } else {
      OwnerKept(steps, ttl, t, i, j - 1);
      hide *;
      FoundNext(steps, ttl, t, u, j - 1);
      MemberUpTo(steps, ttl, t, u, i, j - 1);
      ThereNext(steps, ttl, u, i, j - 1);
    }
  }

  lemma ThereNext(steps: seq<Step>, ttl: nat, u: UserId, i: nat, j: nat)
    requires i < j < |steps|
    ensures SetThereUntil(steps, ttl, u, i, j + 1)
       <==> SetThereUntil(steps, ttl, u, i, j) && SetThere(steps, ttl, u, j + 1)
  {
    hide SetThere;
  }

  lemma FoundFirst(steps: seq<Step>, ttl: nat, t: Token, u: UserId, i: nat)
    requires RegistersAt(steps, ttl, t, i) && Before(steps, i, ttl).owner[t] == u
    ensures FoundAt(steps, ttl, u, t, i + 1) && SetThereUntil(steps, ttl, u, i, i + 1)
  {
    StepAt(steps, i, ttl);
    hide Before;
    hide Apply;
    hide SetLive;
    hide Smembers;
    RegistrationAdds(Before(steps, i, ttl), ttl, t);
  }

  lemma FoundNext(steps: seq<Step>, ttl: nat, t: Token, u: UserId, j: nat)
    requires j < |steps| && PastSadd(Before(steps, j, ttl), t) && Before(steps, j, ttl).owner[t] == u
    requires Live(Before(steps, j + 1, ttl), t)
    ensures Live(Before(steps, j, ttl), t)
    ensures FoundAt(steps, ttl, u, t, j + 1) <==> FoundAt(steps, ttl, u, t, j) && SetThere(steps, ttl, u, j + 1)
  {
    StepAt(steps, j, ttl);
    InvAlways(steps[..j], ttl);
    assert DeadSeenDead(Before(steps, j, ttl));
    hide Before;
    hide Apply;
    hide SetLive;
    hide Smembers;
    hide DeadSeenDead;
    hide Live;
    MemberStep(Before(steps, j, ttl), steps[j], ttl, t);
    if !Live(Before(steps, j, ttl), t) {
      DeadForGood(Before(steps, j, ttl), steps[j], ttl, t);
      assert false;
    }
  }

  lemma {:induction false} OwnerKept(steps: seq<Step>, ttl: nat, t: Token, i: nat, j: nat)
    requires RegistersAt(steps, ttl, t, i) && i < j <= |steps|
    ensures PastSadd(Before(steps, j, ttl), t) && Before(steps, j, ttl).owner[t] == Before(steps, i, ttl).owner[t]
    decreases j
  {
    StepAt(steps, j - 1, ttl);
    hide Before;
    hide Apply;
    if j == i + 1 {
      RegistrationAdds(Before(steps, i, ttl), ttl, t);
    } else {
      OwnerKept(steps, ttl, t, i, j - 1);
      PastSaddStays(Before(steps, j - 1, ttl), steps[j - 1], ttl, t);
    }
  }

  /**
   In every run, a live session whose SADD has run is found in its user's index set if and only if
   the set has been there in every state since that SADD.
   */
  lemma {:induction false} FoundIffSetLived(steps: seq<Step>, ttl: nat, t: Token, i: nat)
    requires RegistersAt(steps, ttl, t, i) && Live(Exec(steps, ttl), t)
    ensures var s := Exec(steps, ttl);
      t in s.owner && (t in Smembers(s.index, s.owner[t], s.now) <==> SetLivedSince(steps, ttl, s.owner[t], i))
  {
    Whole(steps, ttl);
    OwnerKept(steps, ttl, t, i, |steps|);
    MemberUpTo(steps, ttl, t, Before(steps, i, ttl).owner[t], i, |steps|);
  }

  // ---- listing against scanning ---------------------------------------------------------------

  /** What a listing would find: the members of the user's index set that are live. */
  function Listed(s: State, u: UserId): set<Token> { set t | t in Smembers(s.index, u, s.now) && Live(s, t) }

  /** What a scan of all sessions would find. */
  function Scanned(s: State, u: UserId): set<Token> {
    set t | t in s.sessions && Live(s, t) && s.sessions[t].user == u
  }

  /** The session's SADD has run, and its user's index set has been there ever since. */
  ghost predicate Reachable(steps: seq<Step>, ttl: nat, t: Token, u: UserId) {
    exists i :: RegistersAt(steps, ttl, t, i) && SetLivedSince(steps, ttl, u, i)
  }

  /** A member of an index set was put there by its SADD. */
  lemma {:induction false} MemberWasRegistered(steps: seq<Step>, ttl: nat, u: UserId, t: Token) returns (i: nat)
    requires var s := Exec(steps, ttl); u in s.index && t in s.index[u].tokens
    ensures RegistersAt(steps, ttl, t, i)
  {
    var init, last := steps[..|steps| - 1], steps[|steps| - 1];
    var s := Exec(init, ttl);
    if u in s.index && t in s.index[u].tokens {
      i := MemberWasRegistered(init, ttl, u, t);
      assert init[..i] == steps[..i];
    } else {
      i := |init|;
      OnlySaddAdds(s, last, ttl, u, t);
    }
  }

  lemma OnlySaddAdds(s: State, step: Step, ttl: nat, u: UserId, t: Token)
    requires u in Apply(s, step, ttl).index && t in Apply(s, step, ttl).index[u].tokens
    requires !(u in s.index && t in s.index[u].tokens)
    ensures step == CreateSadd(t) && t in s.creating && s.creating[t].Stored? && t in s.owner
  {
  }

  lemma OwnerIsUser(steps: seq<Step>, ttl: nat, t: Token)
    requires Live(Exec(steps, ttl), t)
    ensures var s := Exec(steps, ttl); t in s.owner && s.owner[t] == s.sessions[t].user
  {
    InvAlways(steps, ttl);
    hide Exec;
  }

  lemma FoundIffReachable(steps: seq<Step>, ttl: nat, u: UserId, t: Token)
    requires t in Scanned(Exec(steps, ttl), u)
    ensures t in Listed(Exec(steps, ttl), u) <==> Reachable(steps, ttl, t, u)
  {
    OwnerIsUser(steps, ttl, t);
    var s := Exec(steps, ttl);
    if t in Smembers(s.index, u, s.now) {
      var i := MemberWasRegistered(steps, ttl, u, t);
      hide Exec;
      FoundIffSetLived(steps, ttl, t, i);
    } else if Reachable(steps, ttl, t, u) {
      hide Exec;
      var i :| RegistersAt(steps, ttl, t, i) && SetLivedSince(steps, ttl, u, i);
      FoundIffSetLived(steps, ttl, t, i);
      assert false;
    }
  }

  lemma MemberIsTheUsers(s: State, u: UserId, t: Token)
    requires KeysOwned(s) && MembersOwned(s) && t in Smembers(s.index, u, s.now) && Live(s, t)
    ensures s.sessions[t].user == u
  {
    assert u in s.index && t in s.index[u].tokens;
  }

  lemma ListedAreScanned(steps: seq<Step>, ttl: nat, u: UserId)
    ensures Listed(Exec(steps, ttl), u) <= Scanned(Exec(steps, ttl), u)
  {
    InvAlways(steps, ttl);
    hide Exec;
    var s := Exec(steps, ttl);
    assert KeysOwned(s) && MembersOwned(s);
    forall t | t in Listed(s, u) ensures t in Scanned(s, u) { MemberIsTheUsers(s, u, t); }
  }

  /**
   In every run, listing through the index finds exactly the user's live sessions if and only if for
   each of them its SADD has run and the index set has been there ever since.
   */
  lemma {:induction false} ListingIsScanIff(steps: seq<Step>, ttl: nat, u: UserId)
    ensures Listed(Exec(steps, ttl), u) == Scanned(Exec(steps, ttl), u)
       <==> forall t :: t in Scanned(Exec(steps, ttl), u) ==> Reachable(steps, ttl, t, u)
  {
    var s := Exec(steps, ttl);
    ListedAreScanned(steps, ttl, u);
    forall t | t in Scanned(s, u) ensures t in Listed(s, u) <==> Reachable(steps, ttl, t, u) {
      FoundIffReachable(steps, ttl, u, t);
    }
    hide Listed;
    hide Scanned;
    hide Reachable;
    hide Exec;
  }

  /** Step `k` sets the expiry that ends the token's create. */
  predicate ExpiresAt(steps: seq<Step>, ttl: nat, t: Token, k: nat) {
    k < |steps| && steps[k] == CreateExpire(t)
    && var s := Before(steps, k, ttl); t in s.creating && s.creating[t].Added? && t in s.owner
  }

  /** The create came through: SADD, then EXPIRE, with the index set there all the while. */
  ghost predicate CreatedInTime(steps: seq<Step>, ttl: nat, t: Token, u: UserId) {
    exists i, k :: i < k && RegistersAt(steps, ttl, t, i) && ExpiresAt(steps, ttl, t, k)
        && SetThereUntil(steps, ttl, u, i, k)
  }

  lemma ExpiryIndexes(s: State, ttl: nat, t: Token)
    requires t in s.creating && s.creating[t].Added? && t in s.owner && t in Smembers(s.index, s.owner[t], s.now)
    ensures t in Apply(s, CreateExpire(t), ttl).indexed
  {
  }

  lemma {:induction false} StaysIndexed(steps: seq<Step>, ttl: nat, t: Token, k: nat, j: nat)
    requires k <= j <= |steps| && t in Before(steps, k, ttl).indexed
    ensures t in Before(steps, j, ttl).indexed
    decreases j
  {
    if k < j {
      StaysIndexed(steps, ttl, t, k, j - 1);
      StepAt(steps, j - 1, ttl);
      hide Before;
      IndexedGrows(Before(steps, j - 1, ttl), steps[j - 1], ttl);
    }
  }

  lemma IndexedGrows(s: State, step: Step, ttl: nat)
    ensures s.indexed <= Apply(s, step, ttl).indexed
  {
  }

  /** From its EXPIRE on, the index set outlives the session. */
  lemma CreatedInTimeIsReachable(steps: seq<Step>, ttl: nat, t: Token, u: UserId)
    requires t in Scanned(Exec(steps, ttl), u) && CreatedInTime(steps, ttl, t, u)
    ensures Reachable(steps, ttl, t, u)
  {
    OwnerIsUser(steps, ttl, t);
    assert Live(Exec(steps, ttl), t) && Exec(steps, ttl).owner[t] == u;
    Whole(steps, ttl);
    var i: nat, k: nat :|
      i < k && RegistersAt(steps, ttl, t, i) && ExpiresAt(steps, ttl, t, k) && SetThereUntil(steps, ttl, u, i, k);
    hide *;
    OwnerKept(steps, ttl, t, i, |steps|);
    IndexedAfter(steps, ttl, t, u, i, k);
    ThereForGood(steps, ttl, t, u, i, k);
    AsReachable(steps, ttl, t, u, i);
  }

  lemma AsReachable(steps: seq<Step>, ttl: nat, t: Token, u: UserId, i: nat)
    requires RegistersAt(steps, ttl, t, i) && SetThereUntil(steps, ttl, u, i, |steps|)
    ensures Reachable(steps, ttl, t, u)
  {
    hide RegistersAt;
    hide SetThereUntil;
    assert SetLivedSince(steps, ttl, u, i);
  }

  lemma IndexedAfter(steps: seq<Step>, ttl: nat, t: Token, u: UserId, i: nat, k: nat)
    requires i < k && RegistersAt(steps, ttl, t, i) && Before(steps, i, ttl).owner[t] == u
    requires ExpiresAt(steps, ttl, t, k)
    requires SetThereUntil(steps, ttl, u, i, k) && Live(Exec(steps, ttl), t)
    ensures t in Before(steps, k + 1, ttl).indexed
  {
    OwnerKept(steps, ttl, t, i, k);
    LiveBefore(steps, k, ttl, t);
    MemberUpTo(steps, ttl, t, u, i, k);
    StepAt(steps, k, ttl);
    hide Before;
    hide Apply;
    hide Exec;
    hide SetThereUntil;
    hide Smembers;
    ExpiryIndexes(Before(steps, k, ttl), ttl, t);
  }

  lemma ThereForGood(steps: seq<Step>, ttl: nat, t: Token, u: UserId, i: nat, k: nat)
    requires i < k < |steps| && RegistersAt(steps, ttl, t, i) && Before(steps, i, ttl).owner[t] == u
    requires t in Before(steps, k + 1, ttl).indexed && SetThereUntil(steps, ttl, u, i, k) && Live(Exec(steps, ttl), t)
    ensures SetThereUntil(steps, ttl, u, i, |steps|)
  {
    hide Before;
    hide RegistersAt;
    hide Exec;
    hide Live;
    hide SetThere;
    forall j | i < j <= |steps| ensures SetThere(steps, ttl, u, j) {
      if j > k {
        StaysIndexed(steps, ttl, t, k + 1, j);
        OwnerKept(steps, ttl, t, i, j);
        LiveBefore(steps, j, ttl, t);
        IndexedIsThere(steps, ttl, t, u, j);
      }
    }
  }

  lemma IndexedIsThere(steps: seq<Step>, ttl: nat, t: Token, u: UserId, j: nat)
    requires j <= |steps| && t in Before(steps, j, ttl).indexed && Live(Before(steps, j, ttl), t)
    requires t in Before(steps, j, ttl).owner && Before(steps, j, ttl).owner[t] == u
    ensures SetThere(steps, ttl, u, j)
  {
    IndexAgreesWithScan(steps[..j], ttl, u);
    InvAlways(steps[..j], ttl);
    hide Exec;
  }

  /** If every live session of the user was created in time, listing is scanning. */
  lemma {:induction false} ListingIsScanWhenCreatesAreTimely(steps: seq<Step>, ttl: nat, u: UserId)
    requires forall t :: t in Scanned(Exec(steps, ttl), u) ==> CreatedInTime(steps, ttl, t, u)
    ensures Listed(Exec(steps, ttl), u) == Scanned(Exec(steps, ttl), u)
  {
    hide Exec;
    hide Listed;
    hide Scanned;
    hide Reachable;
    hide CreatedInTime;
    forall t | t in Scanned(Exec(steps, ttl), u) ensures Reachable(steps, ttl, t, u) {
      CreatedInTimeIsReachable(steps, ttl, t, u);
    }
    ListingIsScanIff(steps, ttl, u);
  }

  /**
   A revoke ends every session of the user, but the kept one, that can be reached through the index when it
   begins.
   */
  lemma {:induction false} RevokeEndsAllReachable(
    before: seq<Step>, during: seq<Step>, after: seq<Step>, ttl: nat, p: Pid, u: UserId, keep: Option<Token>, t: Token)
    requires p !in Exec(before, ttl).usedPids && t in Exec(before, ttl).owner && Some(t) != keep
    requires t in Scanned(Exec(before, ttl), u) ==> Reachable(before, ttl, t, u)
    requires Live(Exec(before, ttl), t) ==> Exec(before, ttl).sessions[t].user == u
    requires forall i :: 0 <= i < |during| ==> during[i] != RevokeDel(p)
    requires p in Exec(before + [RevokeStart(p, u, keep)] + during, ttl).procs
    ensures !Live(Exec(before + [RevokeStart(p, u, keep)] + during + [RevokeDel(p)] + after, ttl), t)
  {
    hide Exec;
    hide Reachable;
    if Live(Exec(before, ttl), t) {
      assert t in Exec(before, ttl).sessions;
      FoundIffReachable(before, ttl, u, t);
    }
    RevokeEndsAllOthers(before, during, after, ttl, p, u, keep, t);
  }

  // ---- a listing that others interrupt --------------------------------------------------------

  /** The listing started before step `a`, reads on through the steps from `a + 1`. */
  predicate StartsAt(steps: seq<Step>, ttl: nat, p: Pid, u: UserId, a: nat) {
    a < |steps| && steps[a] == ListStart(p, u) && p !in Before(steps, a, ttl).usedPids
  }

  /** Step `b` ends the listing with everything read. */
  predicate EndsAt(steps: seq<Step>, ttl: nat, p: Pid, b: nat) {
    b < |steps| && steps[b] == ListEnd(p)
    && var s := Before(steps, b, ttl); p in s.procs && s.procs[p].Listing? && s.procs[p].todo == {}
  }

  /** Somewhere from state `a` to state `b` the session was live. */
  predicate LiveWithin(steps: seq<Step>, ttl: nat, t: Token, a: nat, b: nat)
    requires b <= |steps|
  {
    exists k :: a <= k <= b && LiveAt(steps, ttl, t, k)
  }

  predicate LiveAt(steps: seq<Step>, ttl: nat, t: Token, k: nat)
    requires k <= |steps|
  {
    Live(Before(steps, k, ttl), t)
  }

  /** The tokens the listing has to read: the members of the index set when it started. */
  function Members(steps: seq<Step>, ttl: nat, u: UserId, a: nat): set<Token>
    requires a <= |steps|
  {
    Smembers(Before(steps, a, ttl).index, u, Before(steps, a, ttl).now)
  }

  /** How far the listing is: nothing shown that was never live, and nothing passed over that still is. */
  ghost predicate ListingFits(steps: seq<Step>, ttl: nat, u: UserId, a: nat, j: nat, l: Proc)
    requires a <= j <= |steps|
  {
    && l.Listing? && l.user == u
    && l.todo + l.shown + l.dead == Members(steps, ttl, u, a)
    && (forall t :: t in l.shown ==> LiveWithin(steps, ttl, t, a, j))
    && (forall t :: t in l.dead ==> t in Before(steps, j, ttl).owner && !LiveAt(steps, ttl, t, j))
  }

  /** The listing is past its start, and if it still runs it is in order. */
  ghost predicate Proceeds(steps: seq<Step>, ttl: nat, p: Pid, u: UserId, a: nat, j: nat)
    requires a <= j <= |steps|
  {
    var s := Before(steps, j, ttl);
    p in s.usedPids && (p in s.procs && s.procs[p].Listing? ==> ListingFits(steps, ttl, u, a, j, s.procs[p]))
  }

  lemma ListingStarts(steps: seq<Step>, ttl: nat, p: Pid, u: UserId, a: nat)
    requires StartsAt(steps, ttl, p, u, a)
    ensures Proceeds(steps, ttl, p, u, a, a + 1)
  {
    StepAt(steps, a, ttl);
    hide Before;
  }

  lemma WithinGrows(steps: seq<Step>, ttl: nat, t: Token, a: nat, j: nat)
    requires a <= j < |steps| && LiveWithin(steps, ttl, t, a, j)
    ensures LiveWithin(steps, ttl, t, a, j + 1)
  {
    hide LiveAt;
  }

  lemma NowWithin(steps: seq<Step>, ttl: nat, t: Token, a: nat, j: nat)
    requires a <= j < |steps| && LiveAt(steps, ttl, t, j)
    ensures LiveWithin(steps, ttl, t, a, j + 1)
  {
    hide LiveAt;
  }

  /** What a step does to a listing: nothing, one read, or its end. */
  lemma PidStaysUsed(s: State, step: Step, ttl: nat)
    ensures s.usedPids <= Apply(s, step, ttl).usedPids
  {
    hide Sadd;
    hide Expire;
    hide SremFrom;
    hide SetLive;
    hide Smembers;
    hide Live;
    hide Doomed;
  }

  /** Starting a process leaves those under way as they are. */
  lemma StartsLeaveOthers(s: State, step: Step, ttl: nat, p: Pid)
    requires p in s.usedPids && (step.ListStart? || step.RevokeStart? || step.DestroyRead?)
    ensures p in Apply(s, step, ttl).procs <==> p in s.procs
    ensures p in s.procs ==> Apply(s, step, ttl).procs[p] == s.procs[p]
  {
    hide Smembers;
    hide Live;
    hide Doomed;
  }

  lemma ListingStep(s: State, step: Step, ttl: nat, p: Pid)
    requires p in s.usedPids
    ensures var s' := Apply(s, step, ttl);
      && p in s'.usedPids
      && (p in s'.procs && s'.procs[p].Listing? ==>
            && p in s.procs && s.procs[p].Listing?
            && (s'.procs[p] == s.procs[p]
                || (step.ListRead? && step.pid == p && step.token in s.procs[p].todo
                    && s'.procs[p] == ReadOn(s.procs[p], step.token, Live(s, step.token)))))
  {
    PidStaysUsed(s, step, ttl);
    if step.ListStart? || step.RevokeStart? || step.DestroyRead? {
      StartsLeaveOthers(s, step, ttl, p);
      hide Apply;
    } else {
      hide Sadd;
      hide Expire;
      hide SremFrom;
      hide Smembers;
      hide SetLive;
      hide Doomed;
      hide Live;
    }
  }

  function ReadOn(l: Proc, t: Token, live: bool): Proc
    requires l.Listing?
  {
    if live then l.(todo := l.todo - {t}, shown := l.shown + {t}) else l.(todo := l.todo - {t}, dead := l.dead + {t})
  }

  lemma DeadStaysDead(steps: seq<Step>, ttl: nat, t: Token, j: nat)
    requires j < |steps| && t in Before(steps, j, ttl).owner && !LiveAt(steps, ttl, t, j)
    ensures t in Before(steps, j + 1, ttl).owner && !LiveAt(steps, ttl, t, j + 1)
  {
    StepAt(steps, j, ttl);
    hide Before;
    DeadForGood(Before(steps, j, ttl), steps[j], ttl, t);
  }

  lemma SameListingFits(steps: seq<Step>, ttl: nat, u: UserId, a: nat, j: nat, l: Proc)
    requires a <= j < |steps| && ListingFits(steps, ttl, u, a, j, l)
    ensures ListingFits(steps, ttl, u, a, j + 1, l)
  {
    hide LiveWithin;
    hide LiveAt;
    hide Before;
    hide Members;
    forall t | t in l.shown ensures LiveWithin(steps, ttl, t, a, j + 1) { WithinGrows(steps, ttl, t, a, j); }
    forall t | t in l.dead ensures t in Before(steps, j + 1, ttl).owner && !LiveAt(steps, ttl, t, j + 1) {
      DeadStaysDead(steps, ttl, t, j);
    }
  }

  lemma ReadFits(steps: seq<Step>, ttl: nat, u: UserId, a: nat, j: nat, l: Proc, t: Token)
    requires a <= j < |steps| && ListingFits(steps, ttl, u, a, j, l) && t in l.todo && t in Before(steps, j, ttl).owner
    ensures ListingFits(steps, ttl, u, a, j + 1, ReadOn(l, t, LiveAt(steps, ttl, t, j)))
  {
    hide LiveWithin;
    hide LiveAt;
    hide Before;
    hide Members;
    SameListingFits(steps, ttl, u, a, j, l);
    ReadKeepsTokens(l, t, LiveAt(steps, ttl, t, j));
    if LiveAt(steps, ttl, t, j) { NowWithin(steps, ttl, t, a, j); } else { DeadStaysDead(steps, ttl, t, j); }
  }

  lemma ReadKeepsTokens(l: Proc, t: Token, live: bool)
    requires l.Listing? && t in l.todo
    ensures var l' := ReadOn(l, t, live); l'.todo + l'.shown + l'.dead == l.todo + l.shown + l.dead
  {
  }

  lemma HandOwned(steps: seq<Step>, ttl: nat, p: Pid, j: nat)
    requires j <= |steps| && p in Before(steps, j, ttl).procs && Before(steps, j, ttl).procs[p].Listing?
    ensures forall t :: t in Before(steps, j, ttl).procs[p].todo ==> t in Before(steps, j, ttl).owner
  {
    InvAlways(steps[..j], ttl);
    hide Exec;
    var s := Before(steps, j, ttl);
    forall t | t in s.procs[p].todo ensures t in s.owner { assert t in InHand(s.procs[p]); }
  }

  lemma ProceedsStep(steps: seq<Step>, ttl: nat, p: Pid, u: UserId, a: nat, j: nat)
    requires a <= j < |steps| && Proceeds(steps, ttl, p, u, a, j)
    ensures Proceeds(steps, ttl, p, u, a, j + 1)
  {
    StepAt(steps, j, ttl);
    var s := Before(steps, j, ttl);
    ListingStep(s, steps[j], ttl, p);
    if p in s.procs && s.procs[p].Listing? {
      var l := s.procs[p];
      HandOwned(steps, ttl, p, j);
      hide Before;
      hide Apply;
      hide ListingFits;
      hide Live;
      SameListingFits(steps, ttl, u, a, j, l);
      if steps[j].ListRead? && steps[j].token in l.todo { ReadFits(steps, ttl, u, a, j, l, steps[j].token); }
      IsLiveAt(steps, ttl, j);
    }
  }

  lemma IsLiveAt(steps: seq<Step>, ttl: nat, j: nat)
    requires j <= |steps|
    ensures forall t :: LiveAt(steps, ttl, t, j) <==> Live(Before(steps, j, ttl), t)
  {
  }

  lemma {:induction false} ProceedsUpTo(steps: seq<Step>, ttl: nat, p: Pid, u: UserId, a: nat, j: nat)
    requires StartsAt(steps, ttl, p, u, a) && a < j <= |steps|
    ensures Proceeds(steps, ttl, p, u, a, j)
    decreases j
  {
    hide *;
    if j == a + 1 {
      ListingStarts(steps, ttl, p, u, a);
    } else {
      ProceedsUpTo(steps, ttl, p, u, a, j - 1);
      ProceedsStep(steps, ttl, p, u, a, j - 1);
    }
  }

  /**
   However other commands interrupt it, a listing shows every member of the index set that is live
   when it ends, and only members that were live at some moment between its start and its end.
   */
  lemma {:induction false} ListingShowsWhatStaysLive(steps: seq<Step>, ttl: nat, p: Pid, u: UserId, a: nat, b: nat)
    requires StartsAt(steps, ttl, p, u, a) && EndsAt(steps, ttl, p, b) && a < b
    ensures p in Before(steps, b + 1, ttl).listed
    ensures var shown, members := Before(steps, b + 1, ttl).listed[p], Members(steps, ttl, u, a);
      && shown <= members
      && (forall t :: t in members && LiveAt(steps, ttl, t, b) ==> t in shown)
      && (forall t :: t in shown ==> LiveWithin(steps, ttl, t, a, b))
  {
    ProceedsUpTo(steps, ttl, p, u, a, b);
    StepAt(steps, b, ttl);
    hide Before;
    hide LiveAt;
    hide LiveWithin;
    hide Members;
    EndShows(Before(steps, b, ttl), ttl, p);
    hide Apply;
  }

  lemma EndShows(s: State, ttl: nat, p: Pid)
    requires p in s.procs && s.procs[p].Listing? && s.procs[p].todo == {}
    ensures p in Apply(s, ListEnd(p), ttl).listed && Apply(s, ListEnd(p), ttl).listed[p] == s.procs[p].shown
  {
  }
}
