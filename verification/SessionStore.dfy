/**
 The session store of one sign-in surface, every call run to its end, with a reply to each of its
 Redis commands. `SessionIndex` has the same commands interleaved.
 */
module SessionStore {
  import opened Options
  import opened Replies
  import opened SessionIndex
  import opened Sorting

  datatype Context = Context(ip: Option<string>, userAgent: Option<string>)

  datatype StoredSession = StoredSession(user: UserId, createdAt: int, context: Context, expiresAt: int)

  datatype View = View(id: string, createdAt: int, context: Context, current: bool)

  function SessionId(token: Token): string { if |token| <= 8 then token else token[..8] }

  function ViewOf(token: Token, stored: StoredSession, current: Option<Token>): View {
    View(SessionId(token), stored.createdAt, stored.context, Some(token) == current)
  }

  /** The caller's own session leads; otherwise newest first. */
  predicate ShownBefore(a: View, b: View) {
    if a.current != b.current then a.current else a.createdAt >= b.createdAt
  }

  function ViewsOf(tokens: seq<Token>, sessions: map<Token, StoredSession>, current: Option<Token>): seq<View>
    requires forall t :: t in tokens ==> t in sessions
  {
    if tokens == [] then []
    else
      ViewsOf(tokens[..|tokens| - 1], sessions, current)
      + [ViewOf(tokens[|tokens| - 1], sessions[tokens[|tokens| - 1]], current)]
  }

  ghost predicate Enumerates(order: seq<Token>, tokens: set<Token>) {
    && (forall t :: t in order <==> t in tokens)
    && (forall i, j :: 0 <= i < j < |order| ==> order[i] != order[j])
  }

  predicate LiveAt(sessions: map<Token, StoredSession>, t: Token, now: int) {
    t in sessions && sessions[t].expiresAt > now
  }

  function ScanOf(sessions: map<Token, StoredSession>, user: UserId, now: int): set<Token> {
    set t | t in sessions && sessions[t].expiresAt > now && sessions[t].user == user
  }

  /** What reading the index and dropping the dead tokens gives. */
  function FoundIn(
      sessions: map<Token, StoredSession>, index: map<UserId, IndexSet>, user: UserId, now: int): set<Token> {
    set t | t in Smembers(index, user, now) && LiveAt(sessions, t, now)
  }

  /** The live session is in its user's index set, which does not run out before it. */
  predicate InIndex(session: StoredSession, t: Token, index: map<UserId, IndexSet>, now: int) {
    var u := session.user;
    SetLive(index, u, now) && t in index[u].tokens
    && (index[u].expiresAt.None? || index[u].expiresAt.value >= session.expiresAt)
  }

  ghost predicate AgreesOn(sessions: map<Token, StoredSession>, index: map<UserId, IndexSet>, ttl: nat, now: int) {
    && (forall t :: LiveAt(sessions, t, now) ==> InIndex(sessions[t], t, index, now))
    && (forall u, t :: u in index && t in index[u].tokens && t in sessions ==> sessions[t].user == u)
    && (forall t :: t in sessions ==> sessions[t].expiresAt <= now + ttl)
  }

  /** Agreement outlasts the clock, so it holds at the next call whenever that comes. */
  lemma AgreesLater(
      sessions: map<Token, StoredSession>, index: map<UserId, IndexSet>, ttl: nat, earlier: int, now: int)
    requires AgreesOn(sessions, index, ttl, earlier) && earlier <= now
    ensures AgreesOn(sessions, index, ttl, now)
  {
    forall t | LiveAt(sessions, t, now) ensures InIndex(sessions[t], t, index, now) {
      assert LiveAt(sessions, t, earlier);
    }
  }

  /** Reading the index and dropping the dead tokens is the same as scanning all sessions. */
  lemma IndexIsScan(sessions: map<Token, StoredSession>, index: map<UserId, IndexSet>, ttl: nat, user: UserId, now: int)
    requires AgreesOn(sessions, index, ttl, now)
    ensures FoundIn(sessions, index, user, now) == ScanOf(sessions, user, now)
  {
    forall t | t in ScanOf(sessions, user, now) ensures t in Smembers(index, user, now) && LiveAt(sessions, t, now) {
      assert LiveAt(sessions, t, now);
    }
  }

  /** No other user's index set is touched. */
  ghost predicate OthersUntouched(before: map<UserId, IndexSet>, after: map<UserId, IndexSet>, user: UserId) {
    forall u :: u != user ==> (u in before <==> u in after) && (u in before ==> after[u] == before[u])
  }

  lemma SameUntouched(index: map<UserId, IndexSet>, user: UserId)
    ensures OthersUntouched(index, index, user)
  {
  }

  /** Removing tokens from a set leaves the others in it, and the other sets alone. */
  lemma SremExactly(index: map<UserId, IndexSet>, user: UserId, tokens: set<Token>, now: int)
    ensures Smembers(SremFrom(index, user, tokens, now), user, now) == Smembers(index, user, now) - tokens
    ensures OthersUntouched(index, SremFrom(index, user, tokens, now), user)
  {
  }

  /** Taking dead tokens out of a set leaves every live session in the index. */
  lemma SremAgrees(
      sessions: map<Token, StoredSession>, index: map<UserId, IndexSet>, ttl: nat, user: UserId, tokens: set<Token>,
      now: int)
    requires AgreesOn(sessions, index, ttl, now) && forall t :: t in tokens ==> !LiveAt(sessions, t, now)
    ensures AgreesOn(sessions, SremFrom(index, user, tokens, now), ttl, now)
  {
    forall t | LiveAt(sessions, t, now) ensures InIndex(sessions[t], t, SremFrom(index, user, tokens, now), now) {
      assert InIndex(sessions[t], t, index, now);
      SremKeeps(index, user, tokens, now, sessions[t].user, t);
    }
  }

  /** Ending sessions leaves the index agreeing about the others. */
  lemma LessAgrees(
      sessions: map<Token, StoredSession>, index: map<UserId, IndexSet>, ttl: nat, tokens: set<Token>, now: int)
    ensures AgreesOn(sessions, index, ttl, now) ==> AgreesOn(sessions - tokens, index, ttl, now)
  {
    if AgreesOn(sessions, index, ttl, now) {
      forall t | LiveAt(sessions - tokens, t, now) ensures InIndex((sessions - tokens)[t], t, index, now) {
        assert LiveAt(sessions, t, now);
      }
    }
  }

  /** Taking the expired tokens that a listing has met out of the set. */
  function AfterSweep(
      index: map<UserId, IndexSet>, user: UserId, expired: set<Token>, now: int, srem: Reply): map<UserId, IndexSet> {
    if expired != {} && Done(srem) then SremFrom(index, user, expired, now) else index
  }

  lemma SweepExactly(
      sessions: map<Token, StoredSession>, index: map<UserId, IndexSet>, ttl: nat, user: UserId, expired: set<Token>,
      now: int, srem: Reply)
    requires expired == set t | t in Smembers(index, user, now) && !LiveAt(sessions, t, now)
    ensures var index' := AfterSweep(index, user, expired, now, srem);
            && FoundIn(sessions, index', user, now) == FoundIn(sessions, index, user, now)
            && (Done(srem) ==> Smembers(index', user, now) == FoundIn(sessions, index, user, now))
            && OthersUntouched(index, index', user)
            && (AgreesOn(sessions, index, ttl, now) ==> AgreesOn(sessions, index', ttl, now))
  {
    SremExactly(index, user, expired, now);
    if AgreesOn(sessions, index, ttl, now) { SremAgrees(sessions, index, ttl, user, expired, now); }
    hide AgreesOn;
    hide SremFrom;
    hide Smembers;
    hide LiveAt;
    var members, found := Smembers(index, user, now), FoundIn(sessions, index, user, now);
    assert members - expired == found;
    if expired == {} { assert members == found; }
  }

  /** What deleting the tokens a revoke has read does to the sessions of each user. */
  lemma RevokeScans(
      sessions: map<Token, StoredSession>, index: map<UserId, IndexSet>, ttl: nat, user: UserId, keep: Option<Token>,
      now: int)
    requires AgreesOn(sessions, index, ttl, now)
    ensures var left := sessions - DoomedTokens(index, user, keep, now);
            AgreesOn(left, index, ttl, now) &&
            ScanOf(left, user, now) == (set t | t in ScanOf(sessions, user, now) && Some(t) == keep) &&
            forall u :: u != user ==> ScanOf(left, u, now) == ScanOf(sessions, u, now)
  {
    var left := sessions - DoomedTokens(index, user, keep, now);
    forall t | LiveAt(left, t, now) ensures InIndex(left[t], t, index, now) { assert LiveAt(sessions, t, now); }
    forall t | t in ScanOf(sessions, user, now) ensures t in Smembers(index, user, now) {
      assert LiveAt(sessions, t, now);
    }
    forall u | u != user ensures ScanOf(left, u, now) == ScanOf(sessions, u, now) {
      forall t | t in ScanOf(sessions, u, now) ensures t in left {}
    }
  }

  function DoomedTokens(index: map<UserId, IndexSet>, user: UserId, keep: Option<Token>, now: int): set<Token> {
    set t | t in Smembers(index, user, now) && Some(t) != keep
  }

  /** The index after the commands of a sign-in: the second runs only when the first was answered. */
  function IndexAfterAdd(
      index: map<UserId, IndexSet>, user: UserId, token: Token, now: int, ttl: nat, sadd: Reply, expire: Reply)
      : map<UserId, IndexSet> {
    if sadd.Rejected? then index
    else
      var added := Sadd(index, user, token, now);
      if sadd.Answered? && Done(expire) then Expire(added, user, now, ttl) else added
  }

  /** The set that a sign-in finds does not run out before `end`. */
  predicate Outlasts(index: map<UserId, IndexSet>, user: UserId, now: int, end: int) {
    SetLive(index, user, now) && index[user].expiresAt.Some? ==> index[user].expiresAt.value >= end
  }

  /** The token is in the set, which runs out no earlier than the new session. */
  predicate AddComesThrough(
      index: map<UserId, IndexSet>, user: UserId, now: int, ttl: nat, sadd: Reply, expire: Reply) {
    Done(sadd) && ((sadd.Answered? && Done(expire)) || Outlasts(index, user, now, now + ttl))
  }

  /** Signing in keeps the agreement if and only if the new token gets into a set that lasts. */
  lemma AddAgreesIff(
      sessions: map<Token, StoredSession>, index: map<UserId, IndexSet>, ttl: nat, user: UserId, token: Token,
      context: Context, now: int, sadd: Reply, expire: Reply)
    requires AgreesOn(sessions, index, ttl, now) && token !in sessions && ttl > 0
    requires forall u :: u in index ==> token !in index[u].tokens
    ensures var sessions' := sessions[token := StoredSession(user, now, context, now + ttl)];
            AgreesOn(sessions', IndexAfterAdd(index, user, token, now, ttl, sadd, expire), ttl, now)
            <==> AddComesThrough(index, user, now, ttl, sadd, expire)
  {
    var session := StoredSession(user, now, context, now + ttl);
    var sessions', index' := sessions[token := session], IndexAfterAdd(index, user, token, now, ttl, sadd, expire);
    assert LiveAt(sessions', token, now);
    assert InIndex(session, token, index', now) <==> AddComesThrough(index, user, now, ttl, sadd, expire);
    forall t | t != token && LiveAt(sessions', t, now) ensures InIndex(sessions'[t], t, index', now) {
      assert LiveAt(sessions, t, now);
    }
  }

  /** Signing in as a whole: the session is stored, and its token gets into a set that lasts. */
  lemma SignInAgreesIff(
      sessions: map<Token, StoredSession>, index: map<UserId, IndexSet>, ttl: nat, user: UserId, token: Token,
      context: Context, now: int, put: Reply, sadd: Reply, expire: Reply)
    requires AgreesOn(sessions, index, ttl, now) && token !in sessions && ttl > 0
    requires forall u :: u in index ==> token !in index[u].tokens
    ensures var sessions' := sessions[token := StoredSession(user, now, context, now + ttl)];
            var index' := IndexAfterAdd(index, user, token, now, ttl, sadd, expire);
            AgreesOn(if Done(put) then sessions' else sessions, if put.Answered? then index' else index, ttl, now)
            <==> put.Rejected? || (put.Answered? && AddComesThrough(index, user, now, ttl, sadd, expire))
  {
    if put.Answered? {
      AddAgreesIff(sessions, index, ttl, user, token, context, now, sadd, expire);
    } else {
      AddAgreesIff(sessions, index, ttl, user, token, context, now, Rejected, Rejected);
      hide AgreesOn;
    }
  }

  lemma AddScans(
      sessions: map<Token, StoredSession>, user: UserId, token: Token, context: Context, now: int, ttl: nat)
    requires token !in sessions
    ensures var sessions' := sessions[token := StoredSession(user, now, context, now + ttl)];
            ttl > 0 ==> ScanOf(sessions', user, now) == ScanOf(sessions, user, now) + {token}
  {
  }

  class Store {
    const ttl: nat
    var sessions: map<Token, StoredSession>
    var index: map<UserId, IndexSet>

    constructor (ttl: nat)
      ensures this.ttl == ttl && sessions == map[] && index == map[]
      ensures forall now :: Agrees(now)
    {
      this.ttl := ttl;
      sessions, index := map[], map[];
    }

    /** The sessions a scan would find for the user. */
    function Scan(user: UserId, now: int): set<Token>
      reads this
    {
      ScanOf(sessions, user, now)
    }

    /** The live sessions that can be found through the index. */
    function Found(user: UserId, now: int): set<Token>
      reads this
    {
      FoundIn(sessions, index, user, now)
    }

    /** Every live session is in its user's index set, which outlives it, and no other user's token is. */
    ghost predicate Agrees(now: int)
      reads this
    {
      AgreesOn(sessions, index, ttl, now)
    }

    /** Agreement at some earlier time is agreement now. */
    ghost predicate AgreedBy(now: int)
      reads this
    {
      exists earlier :: earlier <= now && Agrees(earlier)
    }

    lemma AgreesNow(now: int)
      requires AgreedBy(now)
      ensures Agrees(now)
    {
      var earlier :| earlier <= now && Agrees(earlier);
      AgreesLater(sessions, index, ttl, earlier, now);
    }

    lemma SignInKeepsAgreementIff(
        user: UserId, token: Token, context: Context, now: int, put: Reply, sadd: Reply, expire: Reply)
      requires token !in sessions && forall u :: u in index ==> token !in index[u].tokens
      ensures var sessions' := sessions[token := StoredSession(user, now, context, now + ttl)];
              var index' := IndexAfterAdd(index, user, token, now, ttl, sadd, expire);
              AgreedBy(now) && ttl > 0 ==>
                (AgreesOn(if Done(put) then sessions' else sessions, if put.Answered? then index' else index, ttl, now)
                 <==> put.Rejected? || (put.Answered? && AddComesThrough(index, user, now, ttl, sadd, expire)))
    {
      hide AgreesOn;
      hide IndexAfterAdd;
      hide AddComesThrough;
      if AgreedBy(now) && ttl > 0 {
        AgreesNow(now);
        SignInAgreesIff(sessions, index, ttl, user, token, context, now, put, sadd, expire);
      }
    }

    /**
     Adds exactly this session; keeping the index is best effort and never fails a sign-in. The index
     goes on agreeing exactly when the session was not stored, or its token got into a set that lasts.
     */
    method Create(token: Token, user: UserId, context: Context, now: int, put: Reply, sadd: Reply, expire: Reply)
      returns (ok: bool)
      requires token !in sessions && forall u :: u in index ==> token !in index[u].tokens
      modifies this`sessions, this`index
      ensures ok == put.Answered?
      ensures sessions == if Done(put) then old(sessions)[token := StoredSession(user, now, context, now + ttl)]
                          else old(sessions)
      ensures index == if ok then IndexAfterAdd(old(index), user, token, now, ttl, sadd, expire) else old(index)
      ensures old(AgreedBy(now)) && ttl > 0 ==>
                (Agrees(now) <==> put.Rejected? || (ok && AddComesThrough(old(index), user, now, ttl, sadd, expire)))
      ensures Done(put) && ttl > 0 ==> Scan(user, now) == old(Scan(user, now)) + {token}
    {
      SignInKeepsAgreementIff(user, token, context, now, put, sadd, expire);
      AddScans(sessions, user, token, context, now, ttl);
      hide AgreesOn;
      hide AgreedBy;
      hide ScanOf;
      hide AddComesThrough;
      hide IndexAfterAdd;
      if Done(put) { sessions := sessions[token := StoredSession(user, now, context, now + ttl)]; }
      if !put.Answered? { return false; }
      IndexAdd(user, token, now, sadd, expire);
      return true;
    }

    /** Best effort: an error of either command is swallowed. */
    method IndexAdd(user: UserId, token: Token, now: int, sadd: Reply, expire: Reply)
      modifies this`index
      ensures index == IndexAfterAdd(old(index), user, token, now, ttl, sadd, expire)
    {
      hide Sadd;
      hide Expire;
      if Done(sadd) { index := Sadd(index, user, token, now); }
      if sadd.Answered? && Done(expire) { index := Expire(index, user, now, ttl); }
    }

    /** The identity is re-read from the account on every resolve; no session, no identity. */
    method Resolve<T>(token: Token, now: int, revalidate: UserId -> Option<T>) returns (identity: Option<T>)
      ensures identity == (if LiveAt(sessions, token, now) then revalidate(sessions[token].user) else None)
    {
      if token in sessions && sessions[token].expiresAt > now {
        return revalidate(sessions[token].user);
      }
      return None;
    }

    /** Ends this session alone; taking its token off the index is best effort. Agreement is kept in any case. */
    method Destroy(token: Token, now: int, getAnswers: bool, del: Reply, srem: Reply) returns (ok: bool)
      modifies this`sessions, this`index
      ensures ok == (getAnswers && del.Answered?)
      ensures sessions == if getAnswers && Done(del) then old(sessions) - {token} else old(sessions)
      ensures if ok && LiveAt(old(sessions), token, now) && Done(srem) then
                var user := old(sessions)[token].user;
                Smembers(index, user, now) == Smembers(old(index), user, now) - {token}
                && OthersUntouched(old(index), index, user)
              else index == old(index)
      ensures old(AgreedBy(now)) ==> Agrees(now)
    {
      if AgreedBy(now) { AgreesNow(now); }
      if !getAnswers { return false; }
      var stored := if token in sessions && sessions[token].expiresAt > now then Some(sessions[token]) else None;
      if Done(del) {
        LessAgrees(sessions, index, ttl, {token}, now);
        sessions := sessions - {token};
      }
      if !del.Answered? { return false; }
      if stored.Some? && Done(srem) {
        if Agrees(now) { SremAgrees(sessions, index, ttl, stored.value.user, {token}, now); }
        SremExactly(index, stored.value.user, {token}, now);
        index := SremFrom(index, stored.value.user, {token}, now);
      }
      return true;
    }

    /**
     Reads the sessions of the tokens in the order in which Redis returned them, `order` being those
     that are live; the tokens of the others have expired. One that cannot be read is an error.
     */
    method ReadAll(tokens: set<Token>, current: Option<Token>, now: int, getAnswers: Token -> bool)
      returns (views: Option<seq<View>>, expired: set<Token>, ghost order: seq<Token>)
      ensures views.None? <==> exists t :: t in tokens && !getAnswers(t)
      ensures forall t :: t in order ==> t in sessions
      ensures views.Some? ==>
                && views.value == ViewsOf(order, sessions, current)
                && Enumerates(order, set t | t in tokens && LiveAt(sessions, t, now))
                && expired == set t | t in tokens && !LiveAt(sessions, t, now)
    {
      order, expired := [], {};
      var todo := tokens;
      var listed: seq<View> := [];
      while todo != {}
        invariant todo <= tokens && expired <= tokens && todo !! expired
        invariant forall t :: t in tokens ==> (t in todo || t in order || t in expired)
        invariant forall t :: t in expired ==> !LiveAt(sessions, t, now)
        invariant forall t :: t in order ==> t in tokens && t !in todo && LiveAt(sessions, t, now)
        invariant forall t :: t in tokens - todo ==> getAnswers(t)
        invariant forall i, j :: 0 <= i < j < |order| ==> order[i] != order[j]
        invariant listed == ViewsOf(order, sessions, current)
        decreases todo
      {
        var t :| t in todo;
        if !getAnswers(t) { return None, expired, order; }
        todo := todo - {t};
        if t in sessions && sessions[t].expiresAt > now {
          listed := listed + [ViewOf(t, sessions[t], current)];
          ghost var was := order;
          order := order + [t];
          assert order[..|order| - 1] == was;
        } else {
          expired := expired + {t};
        }
      }
      views := Some(listed);
    }

    /**
     Lists the live sessions found through the index, each once, the caller's own first and then
     newest first; nothing when the index cannot be read, and an error when a session cannot. With an
     index that agrees these are all the user's live sessions. `order` is the order in which Redis
     returned their tokens.
     */
    method List(
        user: UserId, current: Option<Token>, now: int, smembersAnswers: bool, getAnswers: Token -> bool, srem: Reply)
      returns (views: Option<seq<View>>, ghost order: seq<Token>)
      modifies this`index
      ensures views.None? <==> smembersAnswers && exists t :: t in Smembers(old(index), user, now) && !getAnswers(t)
      ensures forall t :: t in order ==> t in sessions
      ensures views.Some? ==> views.value == StableSort(ViewsOf(order, sessions, current), ShownBefore)
      ensures !smembersAnswers ==> order == []
      ensures smembersAnswers && views.Some? ==> Enumerates(order, old(Found(user, now)))
      ensures old(AgreedBy(now)) ==> Agrees(now) && old(Found(user, now)) == Scan(user, now)
      ensures Found(user, now) == old(Found(user, now)) && OthersUntouched(old(index), index, user)
      ensures if smembersAnswers && views.Some? && Done(srem) then Smembers(index, user, now) == old(Found(user, now))
              else index == old(index)
    {
      if AgreedBy(now) {
        AgreesNow(now);
        IndexIsScan(sessions, index, ttl, user, now);
      }
      hide AgreesOn;
      hide AgreedBy;
      hide ScanOf;
      hide StableSort;
      hide Smembers;
      hide LiveAt;
      hide OthersUntouched;
      SameUntouched(index, user);
      order := [];
      if !smembersAnswers { return Some([]), order; }
      var listed: Option<seq<View>>, expired: set<Token>;
      listed, expired, order := ReadAll(Smembers(index, user, now), current, now, getAnswers);
      if listed.None? { return None, order; }
      SweepExactly(sessions, index, ttl, user, expired, now, srem);
      if expired != {} && Done(srem) { index := SremFrom(index, user, expired, now); }
      views := Some(StableSort(listed.value, ShownBefore));
    }

    /**
     Ends the sessions read off the index but the kept one, of this user only; answers none when the
     index cannot be read. With an index that agrees the kept session, if it was live, is then the
     user's only one.
     */
    method RevokeOthers(user: UserId, keep: Option<Token>, now: int, smembersAnswers: bool, del: Reply, srem: Reply)
      returns (count: Option<nat>)
      modifies this`sessions, this`index
      ensures var doomed := DoomedTokens(old(index), user, keep, now);
        && sessions == (if smembersAnswers && Done(del) then old(sessions) - doomed else old(sessions))
        && count == (if !smembersAnswers
            || doomed == {} then Some(0) else if del.Answered? then Some(|doomed|) else None)
      ensures if smembersAnswers && del.Answered? && Done(srem) then
                Smembers(index, user, now) == (set t | t in Smembers(old(index), user, now) && Some(t) == keep)
                && OthersUntouched(old(index), index, user)
              else index == old(index)
      ensures old(AgreedBy(now)) ==> Agrees(now)
      ensures old(AgreedBy(now)) && smembersAnswers && Done(del) ==>
                && Scan(user, now) == (set t | t in old(Scan(user, now)) && Some(t) == keep)
                && forall u :: u != user ==> Scan(u, now) == old(Scan(u, now))
    {
      if AgreedBy(now) {
        AgreesNow(now);
        RevokeScans(sessions, index, ttl, user, keep, now);
      }
      if !smembersAnswers { return Some(0); }
      var doomed := DoomedTokens(index, user, keep, now);
      if doomed == {} {
        assert sessions - doomed == sessions;
        assert forall t :: t in Smembers(index, user, now) && Some(t) != keep ==> t in doomed;
        return Some(0);
      }
      if Done(del) { sessions := sessions - doomed; }
      if !del.Answered? { return None; }
      if Done(srem) {
        if Agrees(now) { SremAgrees(sessions, index, ttl, user, doomed, now); }
        SremExactly(index, user, doomed, now);
        index := SremFrom(index, user, doomed, now);
      }
      return Some(|doomed|);
    }
  }

  lemma ShownBeforeIsAnOrder()
    ensures TotalPreorder(ShownBefore)
  {
  }

  /** The listing has one view per session, in display order. */
  lemma ListingIsOrdered(order: seq<Token>, sessions: map<Token, StoredSession>, current: Option<Token>)
    requires forall t :: t in order ==> t in sessions
    ensures var views := StableSort(ViewsOf(order, sessions, current), ShownBefore);
            && multiset(views) == multiset(ViewsOf(order, sessions, current))
            && forall i, j :: 0 <= i < j < |views| ==>
                 && (views[j].current ==> views[i].current)
                 && (views[i].current == views[j].current ==> views[i].createdAt >= views[j].createdAt)
  {
    ShownBeforeIsAnOrder();
    SortIsOrderedPermutation(ViewsOf(order, sessions, current), ShownBefore);
    hide StableSort;
    hide ViewsOf;
    var views := StableSort(ViewsOf(order, sessions, current), ShownBefore);
    forall i, j | 0 <= i < j < |views| ensures ShownBefore(views[i], views[j]) {}
  }

  /**
   Each view is that of its session: eight characters of the token, when it began and where, and whether it is
   the caller's.
   */
  lemma {:induction false} ViewsShowTheSessions(
      order: seq<Token>, sessions: map<Token, StoredSession>, current: Option<Token>, i: nat)
    requires i < |order| && forall t :: t in order ==> t in sessions
    ensures |ViewsOf(order, sessions, current)| == |order|
    ensures var view, t := ViewsOf(order, sessions, current)[i], order[i];
            && view.id <= t && |view.id| == (if |t| < 8 then |t| else 8)
            && view.createdAt == sessions[t].createdAt && view.context == sessions[t].context
            && (view.current <==> current == Some(t))
  {
    var n := |order| - 1;
    assert forall t :: t in order[..n] ==> t in order;
    if i < n {
      ViewsShowTheSessions(order[..n], sessions, current, i);
    } else if n > 0 {
      ViewsShowTheSessions(order[..n], sessions, current, n - 1);
    }
  }
}
