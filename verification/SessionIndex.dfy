/**
 Sign-in sessions and the per-user index over them, as an interleaving of single Redis
 commands under a clock. Sessions and index sets expire; a create is a SET, an SADD and an
 EXPIRE; list, revoke and destroy read first and delete afterwards. The lifetime is constant.
 */
module SessionIndex {
  import opened Options

  type Token = string
  type UserId = string
  type Pid = nat

  datatype Session = Session(user: UserId, createdAt: int, expiresAt: int)

  /** A Redis set with its optional expiry. */
  datatype IndexSet = IndexSet(tokens: set<Token>, expiresAt: Option<int>)

  /** A create between its commands; `deadline` is the expiry the index set had when SADD ran. */
  datatype Create = Stored | Added(deadline: Option<int>)

  /** A list, revoke or destroy between its commands. A list keeps what it will show. */
  datatype Proc =
    | Listing(user: UserId, todo: set<Token>, shown: set<Token>, dead: set<Token>)
    | Revoking(user: UserId, doomed: set<Token>)
    | Destroying(user: UserId, token: Token)
    | Removing(user: UserId, tokens: set<Token>)

  datatype State = State(
    now: int, sessions: map<Token, Session>, index: map<UserId, IndexSet>, owner: map<Token, UserId>,
    creating: map<Token, Create>, indexed: set<Token>, procs: map<Pid, Proc>, usedPids: set<Pid>,
    listed: map<Pid, set<Token>>)

  datatype Step =
    | Tick(ms: nat)
    | CreateSet(token: Token, user: UserId)
    | CreateSadd(token: Token)
    | CreateExpire(token: Token)
    | CreateStops(token: Token)
    | ListStart(pid: Pid, user: UserId)
    | ListRead(pid: Pid, token: Token)
    | ListEnd(pid: Pid)
    | RevokeStart(pid: Pid, user: UserId, keep: Option<Token>)
    | RevokeDel(pid: Pid)
    | DestroyRead(pid: Pid, token: Token)
    | DestroyDel(pid: Pid)
    | Srem(pid: Pid)
    | ProcStops(pid: Pid)

  predicate Live(s: State, token: Token) { token in s.sessions && s.sessions[token].expiresAt > s.now }

  predicate SetLive(index: map<UserId, IndexSet>, user: UserId, now: int) {
    user in index && (index[user].expiresAt.None? || index[user].expiresAt.value > now)
  }

  function Smembers(index: map<UserId, IndexSet>, user: UserId, now: int): set<Token> {
    if SetLive(index, user, now) then index[user].tokens else {}
  }

  function Sadd(index: map<UserId, IndexSet>, user: UserId, token: Token, now: int): map<UserId, IndexSet> {
    index[user := if SetLive(index, user, now) then index[user].(tokens := index[user].tokens + {token})
                  else IndexSet({token}, None)]
  }

  function Expire(index: map<UserId, IndexSet>, user: UserId, now: int, ttl: nat): map<UserId, IndexSet> {
    if SetLive(index, user, now) then index[user := index[user].(expiresAt := Some(now + ttl))] else index
  }

  /** Redis drops a set that loses its last member. */
  function SremFrom(index: map<UserId, IndexSet>, user: UserId, tokens: set<Token>, now: int): map<UserId, IndexSet> {
    if !SetLive(index, user, now) then index
    else if index[user].tokens - tokens == {} then index - {user}
    else index[user := index[user].(tokens := index[user].tokens - tokens)]
  }

  function Initial(): State { State(0, map[], map[], map[], map[], {}, map[], {}, map[]) }

  function StartProc(s: State, pid: Pid, proc: Proc): State {
    s.(procs := s.procs[pid := proc], usedPids := s.usedPids + {pid})
  }

  /** One Redis command; a step that is not possible in `s` leaves it as it is. */
  function Apply(s: State, step: Step, ttl: nat): State {
    match step
    case Tick(ms) => s.(now := s.now + ms)
    case CreateSet(t, u) =>
      if t in s.owner then s
      else s.(sessions := s.sessions[t := Session(u, s.now, s.now + ttl)], owner := s.owner[t := u],
          creating := s.creating[t := Stored])
    case CreateSadd(t) =>
      if t in s.creating && s.creating[t].Stored? && t in s.owner then
        var u := s.owner[t];
        var deadline := if SetLive(s.index, u, s.now) then s.index[u].expiresAt else None;
        s.(index := Sadd(s.index, u, t, s.now), creating := s.creating[t := Added(deadline)])
      else s
    case CreateExpire(t) =>
      if t in s.creating && s.creating[t].Added? && t in s.owner then
        var u := s.owner[t];
        s.(index := Expire(s.index, u, s.now, ttl), creating := s.creating - {t},
           indexed := if t in Smembers(s.index, u, s.now) then s.indexed + {t} else s.indexed)
      else s
    case CreateStops(t) => s.(creating := s.creating - {t})
    case ListStart(p, u) =>
      if p in s.usedPids then s else StartProc(s, p, Listing(u, Smembers(s.index, u, s.now), {}, {}))
    case ListRead(p, t) =>
      if p in s.procs && s.procs[p].Listing? && t in s.procs[p].todo then
        var l := s.procs[p];
        s.(procs := s.procs[p := if Live(s, t) then l.(todo := l.todo - {t}, shown := l.shown + {t})
                                 else l.(todo := l.todo - {t}, dead := l.dead + {t})])
      else s
    case ListEnd(p) =>
      if p in s.procs && s.procs[p].Listing? && s.procs[p].todo == {}
      then s.(procs := s.procs[p := Removing(s.procs[p].user, s.procs[p].dead)],
          listed := s.listed[p := s.procs[p].shown])
      else s
    case RevokeStart(p, u, keep) =>
      if p in s.usedPids then s else StartProc(s, p, Revoking(u, Doomed(s, u, keep)))
    case RevokeDel(p) =>
      if p in s.procs && s.procs[p].Revoking?
      then s.(sessions := s.sessions - s.procs[p].doomed,
          procs := s.procs[p := Removing(s.procs[p].user, s.procs[p].doomed)])
      else s
    case DestroyRead(p, t) =>
      if p in s.usedPids || !Live(s, t) then s else StartProc(s, p, Destroying(s.sessions[t].user, t))
    case DestroyDel(p) =>
      if p in s.procs && s.procs[p].Destroying?
      then s.(sessions := s.sessions - {s.procs[p].token},
          procs := s.procs[p := Removing(s.procs[p].user, {s.procs[p].token})])
      else s
    case Srem(p) =>
      if p in s.procs && s.procs[p].Removing?
      then s.(index := SremFrom(s.index, s.procs[p].user, s.procs[p].tokens, s.now), procs := s.procs - {p}) else s
    case ProcStops(p) => s.(procs := s.procs - {p})
  }

  function Doomed(s: State, user: UserId, keep: Option<Token>): set<Token> {
    set t | t in Smembers(s.index, user, s.now) && Some(t) != keep
  }

  function Exec(steps: seq<Step>, ttl: nat): State {
    if steps == [] then Initial() else Apply(Exec(steps[..|steps| - 1], ttl), steps[|steps| - 1], ttl)
  }

  // ---- what every run keeps -------------------------------------------------------------

  /** Tokens a process has seen or made dead, which it is about to take out of the index. */
  function SeenDead(p: Proc): set<Token> {
    match p
    case Listing(_, _, _, dead) => dead
    case Removing(_, tokens) => tokens
    case Revoking(_, _) => {}
    case Destroying(_, _) => {}
  }

  ghost predicate TokensOwned(s: State) { KeysOwned(s) && MembersOwned(s) && ProcsOwned(s) }

  ghost predicate KeysOwned(s: State) {
    && (forall t :: t in s.sessions ==> t in s.owner && s.sessions[t].user == s.owner[t])
    && s.creating.Keys <= s.owner.Keys && s.indexed <= s.owner.Keys
  }

  ghost predicate MembersOwned(s: State) {
    forall u, t :: u in s.index && t in s.index[u].tokens ==> t in s.owner && s.owner[t] == u
  }

  /** The tokens a process has in hand. */
  function InHand(p: Proc): set<Token> {
    match p
    case Listing(_, todo, shown, dead) => todo + shown + dead
    case Revoking(_, doomed) => doomed
    case Destroying(_, token) => {token}
    case Removing(_, tokens) => tokens
  }

  ghost predicate ProcsOwned(s: State) {
    forall p, t :: p in s.procs && t in InHand(s.procs[p]) ==> t in s.owner && s.owner[t] == s.procs[p].user
  }

  ghost predicate DeadSeenDead(s: State) {
    && s.procs.Keys <= s.usedPids
    && (forall p, t :: p in s.procs && t in SeenDead(s.procs[p]) ==> t in s.owner && !Live(s, t))
  }

  /** Until when the token is safe in its index set: all its life once the create is through. */
  function SafeUntil(s: State, t: Token): int
    requires t in s.sessions
  {
    var end := s.sessions[t].expiresAt;
    if t in s.indexed then end
    else if t in s.creating && s.creating[t].Added? then
      (if s.creating[t].deadline.None? || s.creating[t].deadline.value >= end
       then end else s.creating[t].deadline.value)
    else s.now
  }

  predicate InIndexUntil(s: State, t: Token, end: int)
    requires t in s.owner
  {
    var u := s.owner[t];
    SetLive(s.index, u, s.now) && t in s.index[u].tokens
    && (s.index[u].expiresAt.None? || s.index[u].expiresAt.value >= end)
  }

  ghost predicate Covered(s: State) {
    forall t :: Live(s, t) && t in s.owner && s.now < SafeUntil(s, t) ==> InIndexUntil(s, t, SafeUntil(s, t))
  }

  ghost predicate WithinTtl(s: State, ttl: nat) {
    forall t :: t in s.sessions ==> s.sessions[t].expiresAt <= s.now + ttl
  }

  ghost predicate Inv(s: State, ttl: nat) { TokensOwned(s) && DeadSeenDead(s) && WithinTtl(s, ttl) && Covered(s) }

  lemma KeysOwnedStep(s: State, step: Step, ttl: nat)
    requires KeysOwned(s)
    ensures KeysOwned(Apply(s, step, ttl))
    ensures forall t :: t in s.owner ==> t in Apply(s, step, ttl).owner && Apply(s, step, ttl).owner[t] == s.owner[t]
  {
  }

  lemma MembersOwnedStep(s: State, step: Step, ttl: nat)
    requires KeysOwned(s) && MembersOwned(s)
    ensures MembersOwned(Apply(s, step, ttl))
  {
  }

  lemma ProcsOwnedStep(s: State, step: Step, ttl: nat)
    requires TokensOwned(s)
    ensures ProcsOwned(Apply(s, step, ttl))
  {
    hide Sadd;
    hide Expire;
    hide SremFrom;
  }

  lemma PidsStep(s: State, step: Step, ttl: nat)
    requires s.procs.Keys <= s.usedPids
    ensures Apply(s, step, ttl).procs.Keys <= Apply(s, step, ttl).usedPids
  {
    hide Sadd;
    hide Expire;
    hide SremFrom;
    hide Smembers;
    hide SetLive;
    hide Doomed;
    hide Live;
  }

  /** A token gets into a process's dead ones by being found dead or by being deleted. */
  lemma NewlyDead(s: State, step: Step, ttl: nat, p: Pid, t: Token)
    requires ProcsOwned(s)
    requires p in Apply(s, step, ttl).procs && t in SeenDead(Apply(s, step, ttl).procs[p])
    requires !(p in s.procs && t in SeenDead(s.procs[p]))
    ensures t in Apply(s, step, ttl).owner && !Live(Apply(s, step, ttl), t)
  {
    hide Sadd;
    hide Expire;
    hide SremFrom;
    hide Smembers;
    hide SetLive;
    hide Doomed;
    assert p in s.procs && t in InHand(s.procs[p]);
    assert step.ListRead? || step.RevokeDel? || step.DestroyDel?;
  }

  lemma DeadStep(s: State, step: Step, ttl: nat)
    requires TokensOwned(s) && DeadSeenDead(s)
    ensures DeadSeenDead(Apply(s, step, ttl))
  {
    PidsStep(s, step, ttl);
    var s' := Apply(s, step, ttl);
    hide Apply;
    hide KeysOwned;
    hide MembersOwned;
    hide ProcsOwned;
    hide Live;
    hide SeenDead;
    forall p, t | p in s'.procs && t in SeenDead(s'.procs[p]) ensures t in s'.owner && !Live(s', t) {
      if p in s.procs && t in SeenDead(s.procs[p]) {
        DeadForGood(s, step, ttl, t);
      } else {
        NewlyDead(s, step, ttl, p, t);
      }
    }
  }

  /** A token that was handed out and is no longer live never comes back to life. */
  lemma DeadForGood(s: State, step: Step, ttl: nat, t: Token)
    requires t in s.owner && !Live(s, t)
    ensures t in Apply(s, step, ttl).owner && !Live(Apply(s, step, ttl), t)
  {
  }

  lemma WithinTtlStep(s: State, step: Step, ttl: nat)
    requires WithinTtl(s, ttl)
    ensures WithinTtl(Apply(s, step, ttl), ttl)
  {
  }

  /** The token is safe for now, and the index has it for as long. */
  predicate CoveredAt(s: State, t: Token) {
    Live(s, t) && t in s.owner && s.now < SafeUntil(s, t) ==> InIndexUntil(s, t, SafeUntil(s, t))
  }

  lemma CoveredBySet(s: State, token: Token, user: UserId, ttl: nat, t: Token)
    requires KeysOwned(s) && CoveredAt(s, t)
    ensures CoveredAt(Apply(s, CreateSet(token, user), ttl), t)
  {
  }

  lemma CoveredBySadd(s: State, token: Token, ttl: nat, t: Token)
    requires KeysOwned(s) && CoveredAt(s, t)
    ensures CoveredAt(Apply(s, CreateSadd(token), ttl), t)
  {
  }

  lemma CoveredByExpire(s: State, token: Token, ttl: nat, t: Token)
    requires KeysOwned(s) && WithinTtl(s, ttl) && CoveredAt(s, t)
    ensures CoveredAt(Apply(s, CreateExpire(token), ttl), t)
  {
  }

  lemma CoveredByStops(s: State, token: Token, ttl: nat, t: Token)
    requires KeysOwned(s) && CoveredAt(s, t)
    ensures CoveredAt(Apply(s, CreateStops(token), ttl), t)
  {
  }

  lemma CoveredByCreate(s: State, step: Step, ttl: nat, t: Token)
    requires Inv(s, ttl) && (step.CreateSet? || step.CreateSadd? || step.CreateExpire? || step.CreateStops?)
    ensures CoveredAt(Apply(s, step, ttl), t)
  {
    assert CoveredAt(s, t);
    assert KeysOwned(s) && WithinTtl(s, ttl);
    hide *;
    match step
    case CreateSet(token, user) => CoveredBySet(s, token, user, ttl, t);
    case CreateSadd(token) => CoveredBySadd(s, token, ttl, t);
    case CreateExpire(token) => CoveredByExpire(s, token, ttl, t);
    case CreateStops(token) => CoveredByStops(s, token, ttl, t);
    case _ =>
  }

  /** What the commands of lists, revokes and destroys leave alone, and the clock. */
  lemma OthersLeave(s: State, step: Step, ttl: nat)
    requires !(step.CreateSet? || step.CreateSadd? || step.CreateExpire? || step.CreateStops?)
    ensures var s' := Apply(s, step, ttl);
            && s'.owner == s.owner && s'.creating == s.creating && s'.indexed == s.indexed && s.now <= s'.now
            && (s'.index == s.index
                || (step.Srem? && step.pid in s.procs && s.procs[step.pid].Removing? && s'.now == s.now
                    && s'.index == SremFrom(s.index, s.procs[step.pid].user, s.procs[step.pid].tokens, s.now)))
  {
    hide SremFrom;
    hide Smembers;
    hide Doomed;
    hide SetLive;
    hide Live;
  }

  lemma LiveBefore(s: State, step: Step, ttl: nat, t: Token)
    requires !step.CreateSet? && Live(Apply(s, step, ttl), t)
    ensures Live(s, t) && Apply(s, step, ttl).sessions[t] == s.sessions[t]
  {
    hide Sadd;
    hide Expire;
    hide SremFrom;
    hide Smembers;
    hide SetLive;
    hide Doomed;
  }

  lemma CoveredByOthers(s: State, step: Step, ttl: nat, t: Token)
    requires Inv(s, ttl) && !(step.CreateSet? || step.CreateSadd? || step.CreateExpire? || step.CreateStops?)
    requires var s' := Apply(s, step, ttl); Live(s', t) && t in s'.owner && s'.now < SafeUntil(s', t)
    ensures var s' := Apply(s, step, ttl); InIndexUntil(s', t, SafeUntil(s', t))
  {
    assert CoveredAt(s, t) && DeadSeenDead(s);
    OthersLeave(s, step, ttl);
    LiveBefore(s, step, ttl, t);
    hide Apply;
    hide TokensOwned;
    hide Covered;
    hide WithinTtl;
    hide SremFrom;
    assert Live(s, t) && s.now < SafeUntil(s, t);
    if step.Srem? && step.pid in s.procs && s.procs[step.pid].Removing? {
      var p := s.procs[step.pid];
      assert t !in SeenDead(p);
      SremKeeps(s.index, p.user, p.tokens, s.now, s.owner[t], t);
    }
  }

  lemma SremKeeps(index: map<UserId, IndexSet>, user: UserId, tokens: set<Token>, now: int, u: UserId, t: Token)
    requires SetLive(index, u, now) && t in index[u].tokens && t !in tokens
    ensures var index' := SremFrom(index, user, tokens, now);
            SetLive(index', u, now) && t in index'[u].tokens && index'[u].expiresAt == index[u].expiresAt
  {
    if user == u { assert t in index[user].tokens - tokens; }
  }

  lemma InvStep(s: State, step: Step, ttl: nat)
    requires Inv(s, ttl)
    ensures Inv(Apply(s, step, ttl), ttl)
  {
    KeysOwnedStep(s, step, ttl);
    MembersOwnedStep(s, step, ttl);
    ProcsOwnedStep(s, step, ttl);
    DeadStep(s, step, ttl);
    WithinTtlStep(s, step, ttl);
    var s' := Apply(s, step, ttl);
    forall t | Live(s', t) && t in s'.owner && s'.now < SafeUntil(s', t) ensures InIndexUntil(s', t, SafeUntil(s', t)) {
      if step.CreateSet? || step.CreateSadd? || step.CreateExpire? || step.CreateStops? {
        CoveredByCreate(s, step, ttl, t);
      }
      else { CoveredByOthers(s, step, ttl, t); }
    }
  }

  lemma {:induction false} InvAlways(steps: seq<Step>, ttl: nat)
    ensures Inv(Exec(steps, ttl), ttl)
  {
    if steps != [] {
      InvAlways(steps[..|steps| - 1], ttl);
      InvStep(Exec(steps[..|steps| - 1], ttl), steps[|steps| - 1], ttl);
    }
  }

  // ---- what list and revoke see ----------------------------------------------------------

  /**
   In every interleaving: each live session whose create came through is in its user's index set,
   the set does not expire before it, and reading the set and dropping the dead tokens yields
   only live sessions of that user.
   */
  lemma IndexAgreesWithScan(steps: seq<Step>, ttl: nat, u: UserId)
    ensures var s := Exec(steps, ttl);
            && (forall t :: Live(s, t) && t in s.indexed && s.sessions[t].user == u ==>
                  t in Smembers(s.index, u, s.now)
                  && (s.index[u].expiresAt.None? || s.index[u].expiresAt.value >= s.sessions[t].expiresAt))
            && (forall t :: t in Smembers(s.index, u, s.now) && Live(s, t) ==> s.sessions[t].user == u)
  {
    InvAlways(steps, ttl);
    var s := Exec(steps, ttl);
    forall t | Live(s, t) && t in s.indexed && s.sessions[t].user == u
      ensures t in Smembers(s.index, u, s.now)
      ensures (s.index[u].expiresAt.None? || s.index[u].expiresAt.value >= s.sessions[t].expiresAt)
    {
      assert InIndexUntil(s, t, SafeUntil(s, t));
    }
  }

  lemma {:induction false} ProcWaits(
      before: seq<Step>, during: seq<Step>, ttl: nat, p: Pid, doomed: set<Token>, u: UserId)
    requires p in Exec(before, ttl).usedPids
    requires (p in Exec(before, ttl).procs ==> Exec(before, ttl).procs[p] == Revoking(u, doomed))
    requires forall i :: 0 <= i < |during| ==> during[i] != RevokeDel(p)
    ensures var s := Exec(before + during, ttl); p in s.usedPids && (p in s.procs ==> s.procs[p] == Revoking(u, doomed))
    decreases |during|
  {
    if during == [] {
      assert before + during == before;
    } else {
      var init, last := during[..|during| - 1], during[|during| - 1];
      assert before + during == before + init + [last];
      ExecSnoc(before + init, last, ttl);
      ProcWaits(before, init, ttl, p, doomed, u);
      ProcWaitsStep(Exec(before + init, ttl), last, ttl, p, doomed, u);
    }
  }

  lemma ProcWaitsStep(s: State, step: Step, ttl: nat, p: Pid, doomed: set<Token>, u: UserId)
    requires p in s.usedPids && (p in s.procs ==> s.procs[p] == Revoking(u, doomed)) && step != RevokeDel(p)
    ensures var s' := Apply(s, step, ttl); p in s'.usedPids && (p in s'.procs ==> s'.procs[p] == Revoking(u, doomed))
  {
    hide Sadd;
    hide Expire;
    hide SremFrom;
    hide SetLive;
    hide Smembers;
    hide Doomed;
    hide Live;
  }

  lemma {:induction false} StaysDead(before: seq<Step>, more: seq<Step>, ttl: nat, t: Token)
    requires t in Exec(before, ttl).owner && !Live(Exec(before, ttl), t)
    ensures t in Exec(before + more, ttl).owner && !Live(Exec(before + more, ttl), t)
    decreases |more|
  {
    if more == [] {
      assert before + more == before;
    } else {
      var init, last := more[..|more| - 1], more[|more| - 1];
      assert before + more == before + init + [last];
      ExecSnoc(before + init, last, ttl);
      StaysDead(before, init, ttl, t);
      DeadForGood(Exec(before + init, ttl), last, ttl, t);
    }
  }

  /**
   Revoking the other sessions ends every session of the user that was found through the index when
   the revoke began, whatever else runs in between, except the one that is kept.
   */
  lemma RevokeEndsAllOthers(
      before: seq<Step>, during: seq<Step>, after: seq<Step>, ttl: nat, p: Pid, u: UserId, keep: Option<Token>,
      t: Token)
    requires p !in Exec(before, ttl).usedPids
    requires t in Exec(before, ttl).owner && Some(t) != keep
    requires var s := Exec(before, ttl); Live(s, t) ==> t in Smembers(s.index, u, s.now)
    requires forall i :: 0 <= i < |during| ==> during[i] != RevokeDel(p)
    requires p in Exec(before + [RevokeStart(p, u, keep)] + during, ttl).procs
    ensures !Live(Exec(before + [RevokeStart(p, u, keep)] + during + [RevokeDel(p)] + after, ttl), t)
  {
    var start, del := [RevokeStart(p, u, keep)], [RevokeDel(p)];
    var began, waiting := before + start, before + start + during;
    hide *;
    ExecSnoc(before, RevokeStart(p, u, keep), ttl);
    ExecSnoc(waiting, RevokeDel(p), ttl);
    RevokeStarts(Exec(before, ttl), ttl, p, u, keep, t);
    InvAlways(before, ttl);
    ProcWaits(began, during, ttl, p, Doomed(Exec(before, ttl), u, keep), u);
    if t in Doomed(Exec(before, ttl), u, keep) {
      InvAlways(waiting, ttl);
      ProcsAreOwned(Exec(waiting, ttl), ttl);
      DelKills(Exec(waiting, ttl), p, ttl, t);
      StaysDead(waiting + del, after, ttl, t);
    } else {
      StaysDead(before, start + during + del + after, ttl, t);
      assert before + (start + during + del + after) == waiting + del + after;
    }
  }

  lemma RevokeStarts(s: State, ttl: nat, p: Pid, u: UserId, keep: Option<Token>, t: Token)
    requires p !in s.usedPids
    ensures var s' := Apply(s, RevokeStart(p, u, keep), ttl);
            p in s'.usedPids && p in s'.procs && s'.procs[p] == Revoking(u, Doomed(s, u, keep))
    ensures t in Smembers(s.index, u, s.now) && Some(t) != keep ==> t in Doomed(s, u, keep)
  {
    hide Smembers;
  }

  lemma ProcsAreOwned(s: State, ttl: nat)
    requires Inv(s, ttl)
    ensures ProcsOwned(s)
  {
  }

  lemma DelKills(s: State, p: Pid, ttl: nat, t: Token)
    requires ProcsOwned(s) && p in s.procs && s.procs[p].Revoking? && t in s.procs[p].doomed
    ensures var s' := Apply(s, RevokeDel(p), ttl); t in s'.owner && !Live(s', t)
  {
    assert t in InHand(s.procs[p]);
  }

  lemma ExecSnoc(steps: seq<Step>, step: Step, ttl: nat)
    ensures Exec(steps + [step], ttl) == Apply(Exec(steps, ttl), step, ttl)
  {
    assert (steps + [step])[..|steps|] == steps;
  }

  const FIRST_SIGN_IN: seq<Step> := [CreateSet("a", "u"), CreateSadd("a"), CreateExpire("a")]

  lemma FirstSignIn()
    ensures Exec(FIRST_SIGN_IN, 10)
            == State(0, map["a" := Session("u", 0, 10)], map["u" := IndexSet({"a"}, Some(10))], map["a" := "u"],
                     map[], {"a"}, map[], {}, map[])
  {
    var l := FIRST_SIGN_IN;
    assert l[..1] == [] + [l[0]] && l[..2] == l[..1] + [l[1]] && l == l[..2] + [l[2]];
    ExecSnoc([], l[0], 10);
    ExecSnoc(l[..1], l[1], 10);
    ExecSnoc(l[..2], l[2], 10);
  }

  const LATE_SIGN_IN: seq<Step> :=
    FIRST_SIGN_IN + [Tick(9)] + [CreateSet("b", "u")] + [CreateSadd("b")] + [Tick(1)] + [CreateExpire("b")]

  /**
   A create that finishes and is not found: the index set of an earlier sign-in runs out between the
   second sign-in's SADD and EXPIRE, and the second session stays live but unlisted.
   */
  lemma LateExpireLosesSession()
    ensures var s := Exec(LATE_SIGN_IN, 10);
            Live(s, "b") && "b" !in s.creating && "b" !in Smembers(s.index, "u", s.now)
  {
    FirstSignIn();
    var s1 := FIRST_SIGN_IN + [Tick(9)];
    var s2 := s1 + [CreateSet("b", "u")];
    ExecSnoc(FIRST_SIGN_IN, Tick(9), 10);
    ExecSnoc(s1, CreateSet("b", "u"), 10);
    assert Exec(s2, 10).index == map["u" := IndexSet({"a"}, Some(10))] && Exec(s2, 10).now == 9;
    assert Exec(s2, 10).creating == map["b" := Stored] && Exec(s2, 10).sessions["b"] == Session("u", 9, 19);
    LateTail(s2);
  }

  lemma LateTail(s2: seq<Step>)
    requires var s := Exec(s2, 10);
             s.now == 9 && s.index == map["u" := IndexSet({"a"}, Some(10))] && s.creating == map["b" := Stored] &&
             "b" in s.owner && s.owner["b"] == "u" && "b" in s.sessions && s.sessions["b"] == Session("u", 9, 19)
    ensures var s := Exec(s2 + [CreateSadd("b")] + [Tick(1)] + [CreateExpire("b")], 10);
            Live(s, "b") && "b" !in s.creating && "b" !in Smembers(s.index, "u", s.now)
  {
    var s3 := s2 + [CreateSadd("b")];
    var s4 := s3 + [Tick(1)];
    ExecSnoc(s2, CreateSadd("b"), 10);
    ExecSnoc(s3, Tick(1), 10);
    ExecSnoc(s4, CreateExpire("b"), 10);
    hide Exec;
    LateSadd(Exec(s2, 10));
    LateExpire(Exec(s3, 10));
  }

  lemma LateSadd(s: State)
    requires s.now == 9 && s.index == map["u" := IndexSet({"a"}, Some(10))] && s.creating == map["b" := Stored]
    requires "b" in s.owner && s.owner["b"] == "u" && "b" in s.sessions && s.sessions["b"] == Session("u", 9, 19)
    ensures var t := Apply(s, CreateSadd("b"), 10);
      && t.now == 9 && t.index == map["u" := IndexSet({"a", "b"}, Some(10))]
      && t.creating == map["b" := Added(Some(10))]
      && t.owner == s.owner && t.sessions == s.sessions
  {
    var t := Apply(s, CreateSadd("b"), 10);
    assert {"a"} + {"b"} == {"a", "b"};
    assert t.index["u"] == IndexSet({"a", "b"}, Some(10));
    assert t.index == s.index["u" := IndexSet({"a", "b"}, Some(10))];
  }

  lemma LateExpire(s: State)
    requires s.now == 9 && s.index == map["u" := IndexSet({"a", "b"}, Some(10))]
    requires s.creating == map["b" := Added(Some(10))]
    requires "b" in s.owner && s.owner["b"] == "u" && "b" in s.sessions && s.sessions["b"] == Session("u", 9, 19)
    ensures var t := Apply(Apply(s, Tick(1), 10), CreateExpire("b"), 10);
      Live(t, "b") && "b" !in t.creating && "b" !in Smembers(t.index, "u", t.now)
  {
  }
}
