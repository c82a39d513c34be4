/**
 Overlapping requests of one user: each call reads the row, decides by what it has read, and writes
 its columns without looking at the row again.
 */
module MfaRace {
  import opened Base32
  import opened Bits
  import opened Mfa
  import opened Options
  import opened Text
  import opened Totp

  /** A call reads the row; later it decides by that copy and writes. A call may never finish. */
  datatype Move = Read(call: nat) | Finish(call: nat, event: Event)

  /** The row, what the calls under way have read, and the secret that the last confirmation checked. */
  datatype Scene = Scene(row: Row, calls: map<nat, Row>, confirmed: Option<string>)

  datatype Accepted = TotpStep(counter: nat) | RecoveryHash(entry: string)

  const FIRST := Scene(FRESH.row, map[], None)

  predicate Possible(move: Move) { move.Finish? ==> Proper(move.event) }

  predicate AllPossible(moves: seq<Move>) { forall i :: 0 <= i < |moves| ==> Possible(moves[i]) }

  /** The row after a request that has read `seen`: only the columns of its own statement change. */
  function Written(hmac: Hmac, hash: Hash, row: Row, seen: Row, e: Event): Row
    requires Proper(e)
  {
    match e
    case BeginEvent(key) =>
      if seen.enabled then row else row.(secret := Begin(seen, key).0.secret, enabled := false, lastCounter := None)
    case ConfirmEvent(code, now, codes) =>
      var (after, ok) := Confirm(hmac, hash, seen, code, now, codes);
      if ok then row.(enabled := true, lastCounter := after.lastCounter, recoveryCodes := after.recoveryCodes) else row
    case VerifyEvent(code, now) =>
      var (after, factor) := Verify(hmac, hash, seen, code, now);
      if factor.None? then row
      else if factor.value.TotpFactor? then row.(lastCounter := after.lastCounter)
      else row.(recoveryCodes := after.recoveryCodes)
    case RegenerateEvent(codes) =>
      if seen.enabled then row.(recoveryCodes := Regenerate(hash, seen, codes).0.recoveryCodes) else row
    case DisableEvent => Disable(row)
  }

  /** A request that has read the row as it still is does what it does alone. */
  lemma AloneIsTheStep(hmac: Hmac, hash: Hash, s: State, e: Event)
    requires Proper(e)
    ensures Written(hmac, hash, s.row, s.row, e) == Step(hmac, hash, s, e).row
  {
    hide MatchedCounter;
    hide HashRecoveryCode;
    hide RemoveFirst;
    hide Encoding;
  }

  /** What the move accepts, if it lets anybody in. */
  function Accepts(hmac: Hmac, hash: Hash, s: Scene, move: Move): Option<Accepted>
    requires Possible(move)
  {
    if move.Read? || move.call !in s.calls || !move.event.VerifyEvent? then None
    else
      var (after, factor) := Verify(hmac, hash, s.calls[move.call], move.event.code, move.event.now);
      if factor.None? then None
      else if factor.value.RecoveryFactor? then Some(RecoveryHash(HashRecoveryCode(hash, move.event.code)))
      else if after.lastCounter.Some? then Some(TotpStep(after.lastCounter.value))
      else None
  }

  /** The move confirms the enrolment that its call has read. */
  predicate Confirms(hmac: Hmac, hash: Hash, s: Scene, move: Move)
    requires Possible(move)
  {
    move.Finish? && move.call in s.calls && move.event.ConfirmEvent?
    && Confirm(hmac, hash, s.calls[move.call], move.event.code, move.event.now, move.event.codes).1
  }

  function AfterRead(s: Scene, call: nat): Scene { s.(calls := s.calls[call := s.row]) }

  function Next(hmac: Hmac, hash: Hash, s: Scene, move: Move): Scene
    requires Possible(move)
  {
    if move.Read? then AfterRead(s, move.call)
    else if move.call !in s.calls then s
    else
      Scene(Written(hmac, hash, s.row, s.calls[move.call], move.event), s.calls - {move.call},
            if Confirms(hmac, hash, s, move) then s.calls[move.call].secret else s.confirmed)
  }

  function Played(hmac: Hmac, hash: Hash, s: Scene, moves: seq<Move>): Scene
    requires AllPossible(moves)
    decreases |moves|
  {
    if moves == [] then s else Played(hmac, hash, Next(hmac, hash, s, moves[0]), moves[1..])
  }

  /** Everything accepted on the way. */
  function AllAccepted(hmac: Hmac, hash: Hash, s: Scene, moves: seq<Move>): seq<Accepted>
    requires AllPossible(moves)
    decreases |moves|
  {
    if moves == [] then []
    else
      var now := Accepts(hmac, hash, s, moves[0]);
      (if now.Some? then [now.value] else []) + AllAccepted(hmac, hash, Next(hmac, hash, s, moves[0]), moves[1..])
  }

  // ---- an enrolled user stays enrolled ---------------------------------------------------------------

  /** The move leaves the enrolment as it is. */
  predicate Keeps(move: Move) { move.Finish? ==> move.event.VerifyEvent? || move.event.RegenerateEvent? }

  predicate AllKeep(moves: seq<Move>) { forall i :: 0 <= i < |moves| ==> Keeps(moves[i]) }

  predicate Enrolled(row: Row, key: seq<byte>) {
    row.enabled && KeyOf(row) == Some(key) && row.lastCounter.Some?
  }

  predicate AllEnrolled(s: Scene, key: seq<byte>) {
    Enrolled(s.row, key) && forall call :: call in s.calls ==> Enrolled(s.calls[call], key)
  }

  lemma VerifyIs(hmac: Hmac, hash: Hash, row: Row, code: string, now: nat, key: seq<byte>)
    requires now >= 1 && Enrolled(row, key)
    ensures var matched := Verified(hmac, key, code, now, row.lastCounter);
            var entry := HashRecoveryCode(hash, code);
            Verify(hmac, hash, row, code, now)
            == (if matched.Some? then (row.(lastCounter := matched), Some(TotpFactor))
                else if entry in Stored(row) then
                  (row.(recoveryCodes := Some(RemoveFirst(Stored(row), entry))), Some(RecoveryFactor))
                else (row, None))
  {
    hide Verified;
    hide HashRecoveryCode;
    hide RemoveFirst;
  }

  lemma NextKeepsEnrolled(hmac: Hmac, hash: Hash, s: Scene, move: Move, key: seq<byte>)
    requires Possible(move) && Keeps(move) && AllEnrolled(s, key)
    ensures AllEnrolled(Next(hmac, hash, s, move), key)
  {
    if move.Finish? && move.call in s.calls && move.event.VerifyEvent? {
      VerifyIs(hmac, hash, s.calls[move.call], move.event.code, move.event.now, key);
    }
    hide Verify;
    hide Verified;
    hide HashRecoveryCode;
    hide RemoveFirst;
    hide Confirm;
  }

  lemma {:induction false} PlayedKeepsEnrolled(hmac: Hmac, hash: Hash, s: Scene, moves: seq<Move>, key: seq<byte>)
    requires AllPossible(moves) && AllKeep(moves) && AllEnrolled(s, key)
    ensures AllEnrolled(Played(hmac, hash, s, moves), key)
    decreases |moves|
  {
    if moves != [] {
      NextKeepsEnrolled(hmac, hash, s, moves[0], key);
      hide AllEnrolled;
      hide Next;
      PlayedKeepsEnrolled(hmac, hash, Next(hmac, hash, s, moves[0]), moves[1..], key);
    }
  }

  // ---- one-time codes ----------------------------------------------------------------------------------

  /** A call still checking has read the row before the counter had reached `counter`. */
  ghost predicate ReadBefore(s: Scene, counter: nat) {
    exists call :: call in s.calls && After(counter, s.calls[call].lastCounter)
  }

  ghost predicate OpenStep(s: Scene, counter: nat) { After(counter, s.row.lastCounter) || ReadBefore(s, counter) }

  lemma MatchIsLater(hmac: Hmac, key: seq<byte>, code: string, now: nat, notBefore: Option<nat>)
    requires now >= 1 && Verified(hmac, key, code, now, notBefore).Some?
    ensures After(Verified(hmac, key, code, now, notBefore).value, notBefore)
  {
    VerifiedIsAnEarliestMatch(hmac, key, code, now, notBefore);
  }

  lemma ClosedStepStaysClosed(hmac: Hmac, hash: Hash, s: Scene, move: Move, key: seq<byte>, counter: nat)
    requires Possible(move) && Keeps(move) && AllEnrolled(s, key) && !OpenStep(s, counter)
    ensures !OpenStep(Next(hmac, hash, s, move), counter)
    ensures Accepts(hmac, hash, s, move) != Some(TotpStep(counter))
  {
    if move.Finish? && move.call in s.calls && move.event.VerifyEvent? {
      var seen := s.calls[move.call];
      VerifyIs(hmac, hash, seen, move.event.code, move.event.now, key);
      var matched := Verified(hmac, key, move.event.code, move.event.now, seen.lastCounter);
      if matched.Some? { MatchIsLater(hmac, key, move.event.code, move.event.now, seen.lastCounter); }
    }
    hide Verify;
    hide Verified;
    hide HashRecoveryCode;
    hide RemoveFirst;
    hide KeyOf;
    hide Confirm;
  }

  lemma {:induction false} ClosedStepNeverAccepted(
    hmac: Hmac, hash: Hash, s: Scene, moves: seq<Move>, key: seq<byte>, counter: nat)
    requires AllPossible(moves) && AllKeep(moves) && AllEnrolled(s, key) && !OpenStep(s, counter)
    ensures TotpStep(counter) !in AllAccepted(hmac, hash, s, moves)
    decreases |moves|
  {
    if moves != [] {
      ClosedStepStaysClosed(hmac, hash, s, moves[0], key, counter);
      NextKeepsEnrolled(hmac, hash, s, moves[0], key);
      hide AllEnrolled;
      hide Next;
      hide Accepts;
      hide OpenStep;
      ClosedStepNeverAccepted(hmac, hash, Next(hmac, hash, s, moves[0]), moves[1..], key, counter);
    }
  }

  function Verifying(call: nat, code: string, now: nat): (move: Move)
    requires now >= 1
    ensures Possible(move) && Keeps(move)
  {
    Finish(call, VerifyEvent(code, now))
  }

  lemma AcceptsIs(hmac: Hmac, hash: Hash, s: Scene, call: nat, code: string, now: nat)
    requires now >= 1 && call in s.calls
    ensures var (after, factor) := Verify(hmac, hash, s.calls[call], code, now);
            Accepts(hmac, hash, s, Verifying(call, code, now))
            == (if factor.None? then None
                else if factor.value.RecoveryFactor? then Some(RecoveryHash(HashRecoveryCode(hash, code)))
                else if after.lastCounter.Some? then Some(TotpStep(after.lastCounter.value))
                else None)
  {
    hide Verify;
    hide HashRecoveryCode;
  }

  lemma FinishAccepts(hmac: Hmac, hash: Hash, s: Scene, call: nat, key: seq<byte>, counter: nat)
    requires call in s.calls && Enrolled(s.calls[call], key) && After(counter, s.calls[call].lastCounter)
    ensures Accepts(hmac, hash, s, Verifying(call, Code(hmac, key, counter), counter + 1)) == Some(TotpStep(counter))
  {
    hide *;
    OwnCodeIsTaken(hmac, key, counter, s.calls[call].lastCounter);
    VerifyIs(hmac, hash, s.calls[call], Code(hmac, key, counter), counter + 1, key);
    AcceptsIs(hmac, hash, s, call, Code(hmac, key, counter), counter + 1);
  }

  /** Reading the row anew, or not, and verifying. */
  function Ways(anew: bool, call: nat, code: string, now: nat): (moves: seq<Move>)
    requires now >= 1
    ensures AllPossible(moves) && AllKeep(moves)
  {
    if anew then [Read(call), Verifying(call, code, now)] else [Verifying(call, code, now)]
  }

  lemma WaysAccept(hmac: Hmac, hash: Hash, s: Scene, anew: bool, call: nat, code: string, now: nat, what: Accepted)
    requires now >= 1
    requires Accepts(hmac, hash, if anew then AfterRead(s, call) else s, Verifying(call, code, now)) == Some(what)
    ensures what in AllAccepted(hmac, hash, s, Ways(anew, call, code, now))
  {
    var moves := Ways(anew, call, code, now);
    hide Verify;
    hide Written;
    hide Confirms;
    if anew {
      assert moves[1..] == [Verifying(call, code, now)];
      var s' := AfterRead(s, call);
      assert AllAccepted(hmac, hash, s', [Verifying(call, code, now)])[0] == what;
    } else {
      assert AllAccepted(hmac, hash, s, moves)[0] == what;
    }
  }

  lemma OpenStepCanBeAccepted(hmac: Hmac, hash: Hash, s: Scene, key: seq<byte>, counter: nat)
    returns (moves: seq<Move>)
    requires AllEnrolled(s, key) && OpenStep(s, counter)
    ensures AllPossible(moves) && AllKeep(moves) && TotpStep(counter) in AllAccepted(hmac, hash, s, moves)
  {
    hide *;
    var code := Code(hmac, key, counter);
    EnrolledScene(s, key);
    ReadSees(s, 0);
    if After(counter, s.row.lastCounter) {
      FinishAccepts(hmac, hash, AfterRead(s, 0), 0, key, counter);
      WaysAccept(hmac, hash, s, true, 0, code, counter + 1, TotpStep(counter));
      moves := Ways(true, 0, code, counter + 1);
    } else {
      var call := PendingStep(s, counter);
      FinishAccepts(hmac, hash, s, call, key, counter);
      WaysAccept(hmac, hash, s, false, call, code, counter + 1, TotpStep(counter));
      moves := Ways(false, call, code, counter + 1);
    }
  }

  lemma EnrolledScene(s: Scene, key: seq<byte>)
    requires AllEnrolled(s, key)
    ensures Enrolled(s.row, key) && forall call :: call in s.calls ==> Enrolled(s.calls[call], key)
  {
  }

  lemma ReadSees(s: Scene, call: nat)
    ensures call in AfterRead(s, call).calls && AfterRead(s, call).calls[call] == s.row
  {
  }

  lemma PendingStep(s: Scene, counter: nat) returns (call: nat)
    requires OpenStep(s, counter) && !After(counter, s.row.lastCounter)
    ensures call in s.calls && After(counter, s.calls[call].lastCounter)
  {
    hide After;
    call :| call in s.calls && After(counter, s.calls[call].lastCounter);
  }

  /** Some way of going on in this enrolment accepts the time step. */
  ghost predicate StepCanBeAccepted(hmac: Hmac, hash: Hash, s: Scene, counter: nat) {
    exists moves :: AllPossible(moves) && AllKeep(moves) && TotpStep(counter) in AllAccepted(hmac, hash, s, moves)
  }

  /**
   A time step can be accepted by what follows if and only if it is later than the row's counter or than
   one a pending call has read.
   */
  lemma StepAcceptedIffOpen(hmac: Hmac, hash: Hash, s: Scene, key: seq<byte>, counter: nat)
    requires AllEnrolled(s, key)
    ensures StepCanBeAccepted(hmac, hash, s, counter) <==> OpenStep(s, counter)
  {
    hide AllEnrolled;
    hide OpenStep;
    if OpenStep(s, counter) {
      var moves := OpenStepCanBeAccepted(hmac, hash, s, key, counter);
    } else {
      forall moves | AllPossible(moves) && AllKeep(moves)
        ensures TotpStep(counter) !in AllAccepted(hmac, hash, s, moves)
      {
        ClosedStepNeverAccepted(hmac, hash, s, moves, key, counter);
      }
    }
  }

  /**
   After any run of overlapping calls in one enrolment that ends by accepting a time step, the same step
   is accepted again by some continuation if and only if a call still under way read the row before.
   */
  lemma {:induction false} ReplayedIffReadBefore(
    hmac: Hmac, hash: Hash, row: Row, key: seq<byte>, moves: seq<Move>, last: Move, counter: nat)
    requires Enrolled(row, key) && AllPossible(moves) && AllKeep(moves) && Possible(last) && Keeps(last)
    requires Accepts(hmac, hash, Played(hmac, hash, Scene(row, map[], row.secret), moves), last)
          == Some(TotpStep(counter))
    ensures var s := Next(hmac, hash, Played(hmac, hash, Scene(row, map[], row.secret), moves), last);
            StepCanBeAccepted(hmac, hash, s, counter) <==> ReadBefore(s, counter)
  {
    var before := Played(hmac, hash, Scene(row, map[], row.secret), moves);
    PlayedKeepsEnrolled(hmac, hash, Scene(row, map[], row.secret), moves, key);
    NextKeepsEnrolled(hmac, hash, before, last, key);
    StepAcceptedIffOpen(hmac, hash, Next(hmac, hash, before, last), key, counter);
    hide Played;
    hide StepCanBeAccepted;
    hide Verify;
    hide ReadBefore;
    assert Next(hmac, hash, before, last).row.lastCounter == Some(counter);
  }

  /** Two calls that both read before either writes let the same code in twice. */
  lemma TwoReadsAcceptOneStep(hmac: Hmac, hash: Hash, row: Row, key: seq<byte>, counter: nat)
    requires Enrolled(row, key) && After(counter, row.lastCounter)
    ensures var verify := Code(hmac, key, counter);
            var moves := [Read(0), Read(1), Verifying(0, verify, counter + 1), Verifying(1, verify, counter + 1)];
            AllAccepted(hmac, hash, Scene(row, map[], row.secret), moves) == [TotpStep(counter), TotpStep(counter)]
  {
    var code := Code(hmac, key, counter);
    var s0 := Scene(row, map[], row.secret);
    hide *;
    var s1 := AfterRead(s0, 0);
    var s2 := AfterRead(s1, 1);
    var first, second := Verifying(0, code, counter + 1), Verifying(1, code, counter + 1);
    var s3 := Next(hmac, hash, s2, first);
    VerifyingIs(0, code, counter + 1);
    VerifyingIs(1, code, counter + 1);
    BothRead(hmac, hash, s0, first);
    FinishAccepts(hmac, hash, s2, 0, key, counter);
    FinishAccepts(hmac, hash, s3, 1, key, counter);
    assert [Read(0), Read(1), first, second] == [Read(0)] + [Read(1), first, second];
    assert [Read(1), first, second] == [Read(1)] + [first, second];
    assert [first, second] == [first] + [second] && [second] == [second] + [];
    NothingPlayed(hmac, hash, Next(hmac, hash, s3, second));
    OneAccepted(hmac, hash, s3, second, []);
    OneAccepted(hmac, hash, s2, first, [second]);
    NoneAccepted(hmac, hash, s1, 1, [first, second]);
    NoneAccepted(hmac, hash, s0, 0, [Read(1), first, second]);
  }

  lemma VerifyingIs(call: nat, code: string, now: nat)
    requires now >= 1
    ensures Verifying(call, code, now) == Finish(call, VerifyEvent(code, now))
  {
  }

  lemma BothRead(hmac: Hmac, hash: Hash, s: Scene, first: Move)
    requires Possible(first) && first.Finish? && first.call == 0
    ensures var s2 := AfterRead(AfterRead(s, 0), 1);
            && 0 in s2.calls && s2.calls[0] == s.row
            && 1 in Next(hmac, hash, s2, first).calls && Next(hmac, hash, s2, first).calls[1] == s.row
  {
    hide Written;
    hide Confirms;
  }

  lemma NoneAccepted(hmac: Hmac, hash: Hash, s: Scene, call: nat, rest: seq<Move>)
    requires AllPossible(rest)
    ensures AllPossible([Read(call)] + rest)
    ensures AllAccepted(hmac, hash, s, [Read(call)] + rest) == AllAccepted(hmac, hash, AfterRead(s, call), rest)
  {
    assert ([Read(call)] + rest)[1..] == rest;
  }

  lemma OneAccepted(hmac: Hmac, hash: Hash, s: Scene, move: Move, rest: seq<Move>)
    requires AllPossible(rest) && Possible(move) && Accepts(hmac, hash, s, move).Some?
    ensures AllPossible([move] + rest)
    ensures AllAccepted(hmac, hash, s, [move] + rest)
         == [Accepts(hmac, hash, s, move).value] + AllAccepted(hmac, hash, Next(hmac, hash, s, move), rest)
  {
    assert ([move] + rest)[1..] == rest;
  }

  // ---- recovery codes ------------------------------------------------------------------------------------

  /** The row lets the owner of this entry in. */
  predicate Usable(row: Row, entry: string) { row.enabled && row.secret.Some? && entry in Stored(row) }

  /** A call under way has read the row while the entry was usable. */
  ghost predicate ReadUsable(s: Scene, entry: string) { exists call :: call in s.calls && Usable(s.calls[call], entry) }

  ghost predicate OpenEntry(s: Scene, entry: string) { Usable(s.row, entry) || ReadUsable(s, entry) }

  /** No new set of recovery codes has this entry. */
  predicate Draws(hash: Hash, e: Event, entry: string) {
    (e.ConfirmEvent? || e.RegenerateEvent?) && entry in HashAll(hash, e.codes)
  }

  predicate NeverDrawn(hash: Hash, moves: seq<Move>, entry: string) {
    forall i :: 0 <= i < |moves| && moves[i].Finish? ==> !Draws(hash, moves[i].event, entry)
  }

  lemma {:induction false} NothingAdded(stored: seq<string>, submitted: string, entry: string)
    requires entry in RemoveFirst(stored, submitted)
    ensures entry in stored
  {
    if stored != [] && stored[0] != submitted && entry != stored[0] { NothingAdded(stored[1..], submitted, entry); }
  }

  /** A write makes an entry usable only if its call has read it so. */
  lemma WrittenUsable(hmac: Hmac, hash: Hash, row: Row, seen: Row, e: Event, entry: string)
    requires Proper(e) && !Draws(hash, e, entry) && Usable(Written(hmac, hash, row, seen, e), entry)
    ensures Usable(row, entry) || Usable(seen, entry)
  {
    if e.VerifyEvent? && entry in RemoveFirst(Stored(seen), HashRecoveryCode(hash, e.code)) {
      NothingAdded(Stored(seen), HashRecoveryCode(hash, e.code), entry);
    }
    hide MatchedCounter;
    hide HashRecoveryCode;
    hide RemoveFirst;
    hide Encoding;
  }

  lemma AcceptedWasUsable(hmac: Hmac, hash: Hash, s: Scene, move: Move, entry: string)
    requires Possible(move) && Accepts(hmac, hash, s, move) == Some(RecoveryHash(entry))
    ensures ReadUsable(s, entry)
  {
    hide MatchedCounter;
    hide HashRecoveryCode;
    hide RemoveFirst;
    assert Usable(s.calls[move.call], entry);
  }

  lemma ClosedEntryStaysClosed(hmac: Hmac, hash: Hash, s: Scene, move: Move, entry: string)
    requires Possible(move) && !OpenEntry(s, entry) && (move.Finish? ==> !Draws(hash, move.event, entry))
    ensures !OpenEntry(Next(hmac, hash, s, move), entry)
  {
    if move.Finish? && move.call in s.calls {
      var seen := s.calls[move.call];
      if Usable(Written(hmac, hash, s.row, seen, move.event), entry) {
        WrittenUsable(hmac, hash, s.row, seen, move.event, entry);
        assert false;
      }
    }
    hide Usable;
    hide Written;
    hide Confirms;
  }

  lemma {:induction false} ClosedEntryNeverAccepted(
    hmac: Hmac, hash: Hash, s: Scene, moves: seq<Move>, entry: string)
    requires AllPossible(moves) && NeverDrawn(hash, moves, entry) && !OpenEntry(s, entry)
    ensures RecoveryHash(entry) !in AllAccepted(hmac, hash, s, moves)
    decreases |moves|
  {
    if moves != [] {
      ClosedEntryStaysClosed(hmac, hash, s, moves[0], entry);
      if Accepts(hmac, hash, s, moves[0]) == Some(RecoveryHash(entry)) {
        AcceptedWasUsable(hmac, hash, s, moves[0], entry);
        assert false;
      }
      hide Next;
      hide Accepts;
      hide OpenEntry;
      hide Draws;
      ClosedEntryNeverAccepted(hmac, hash, Next(hmac, hash, s, moves[0]), moves[1..], entry);
    }
  }

  lemma RecoveryAccepts(hmac: Hmac, hash: Hash, s: Scene, call: nat, code: string)
    requires call in s.calls && Usable(s.calls[call], HashRecoveryCode(hash, code)) && !SixDigits(WithoutBlanks(code))
    ensures Accepts(hmac, hash, s, Verifying(call, code, 1)) == Some(RecoveryHash(HashRecoveryCode(hash, code)))
  {
    assert MatchedCounter(hmac, s.calls[call], code, 1, s.calls[call].lastCounter).None?;
    AcceptsIs(hmac, hash, s, call, code, 1);
    hide MatchedCounter;
    hide HashRecoveryCode;
    hide RemoveFirst;
    hide Accepts;
  }

  lemma OpenEntryCanBeAccepted(hmac: Hmac, hash: Hash, s: Scene, code: string) returns (moves: seq<Move>)
    requires !SixDigits(WithoutBlanks(code)) && OpenEntry(s, HashRecoveryCode(hash, code))
    ensures AllPossible(moves) && NeverDrawn(hash, moves, HashRecoveryCode(hash, code))
    ensures RecoveryHash(HashRecoveryCode(hash, code)) in AllAccepted(hmac, hash, s, moves)
  {
    hide *;
    var entry := HashRecoveryCode(hash, code);
    ReadSees(s, 0);
    if Usable(s.row, entry) {
      RecoveryAccepts(hmac, hash, AfterRead(s, 0), 0, code);
      WaysAccept(hmac, hash, s, true, 0, code, 1, RecoveryHash(entry));
      moves := Ways(true, 0, code, 1);
      WaysDrawNothing(hash, true, 0, code, entry);
    } else {
      var call := PendingEntry(s, entry);
      RecoveryAccepts(hmac, hash, s, call, code);
      WaysAccept(hmac, hash, s, false, call, code, 1, RecoveryHash(entry));
      moves := Ways(false, call, code, 1);
      WaysDrawNothing(hash, false, call, code, entry);
    }
  }

  lemma WaysDrawNothing(hash: Hash, anew: bool, call: nat, code: string, entry: string)
    ensures NeverDrawn(hash, Ways(anew, call, code, 1), entry)
  {
  }

  lemma PendingEntry(s: Scene, entry: string) returns (call: nat)
    requires OpenEntry(s, entry) && !Usable(s.row, entry)
    ensures call in s.calls && Usable(s.calls[call], entry)
  {
    hide Usable;
    call :| call in s.calls && Usable(s.calls[call], entry);
  }

  /** Some way of going on, in which the code is not drawn again, accepts the recovery code of this entry. */
  ghost predicate EntryCanBeAccepted(hmac: Hmac, hash: Hash, s: Scene, entry: string) {
    exists moves ::
      AllPossible(moves) && NeverDrawn(hash, moves, entry) && RecoveryHash(entry) in AllAccepted(hmac, hash, s, moves)
  }

  /**
   Whatever requests overlap, a recovery code (it is no six-digit code) is accepted by some continuation
   if and only if the row lets it in, or did when a call still under way read it.
   */
  lemma {:induction false} RecoveryAcceptedIffOpen(hmac: Hmac, hash: Hash, s: Scene, code: string)
    requires !SixDigits(WithoutBlanks(code))
    ensures var entry := HashRecoveryCode(hash, code);
            EntryCanBeAccepted(hmac, hash, s, entry) <==> OpenEntry(s, entry)
  {
    var entry := HashRecoveryCode(hash, code);
    hide HashRecoveryCode;
    hide OpenEntry;
    hide NeverDrawn;
    if OpenEntry(s, entry) {
      var moves := OpenEntryCanBeAccepted(hmac, hash, s, code);
    } else {
      forall moves | AllPossible(moves) && NeverDrawn(hash, moves, entry)
        ensures RecoveryHash(entry) !in AllAccepted(hmac, hash, s, moves)
      {
        ClosedEntryNeverAccepted(hmac, hash, s, moves, entry);
      }
    }
  }

  /**
   Regenerating the set invalidates an old code if and only if no call still under way has read the row
   while it let that code in.
   */
  lemma RegeneratingInvalidatesIff(hmac: Hmac, hash: Hash, s: Scene, call: nat, codes: seq<string>, code: string)
    requires call in s.calls && s.calls[call].enabled && |codes| == RECOVERY_CODE_COUNT
    requires !SixDigits(WithoutBlanks(code)) && HashRecoveryCode(hash, code) !in HashAll(hash, codes)
    ensures var s' := Next(hmac, hash, s, Finish(call, RegenerateEvent(codes)));
            var entry := HashRecoveryCode(hash, code);
            EntryCanBeAccepted(hmac, hash, s', entry) <==> ReadUsable(s', entry)
  {
    var s', entry := Next(hmac, hash, s, Finish(call, RegenerateEvent(codes))), HashRecoveryCode(hash, code);
    assert s'.row.recoveryCodes == Some(HashAll(hash, codes));
    assert !Usable(s'.row, entry);
    hide Next;
    RecoveryAcceptedIffOpen(hmac, hash, s', code);
    hide EntryCanBeAccepted;
    hide ReadUsable;
  }

  // ---- what is enabled was confirmed ------------------------------------------------------------------------

  /** An enabled factor has the secret that a code was checked against. */
  predicate SecretConfirmed(s: Scene) { s.row.enabled ==> s.row.secret.Some? && s.row.secret == s.confirmed }

  /** A confirmation finds the secret that it has read. */
  predicate ConfirmsUnchanged(hmac: Hmac, hash: Hash, s: Scene, move: Move)
    requires Possible(move)
  {
    Confirms(hmac, hash, s, move) ==> s.row.secret == s.calls[move.call].secret
  }

  lemma NextConfirmed(hmac: Hmac, hash: Hash, s: Scene, move: Move)
    requires Possible(move) && SecretConfirmed(s)
    ensures SecretConfirmed(Next(hmac, hash, s, move)) <==> ConfirmsUnchanged(hmac, hash, s, move)
  {
    hide MatchedCounter;
    hide HashRecoveryCode;
    hide RemoveFirst;
    hide Encoding;
    if move.Finish? && move.event.VerifyEvent? { hide Confirm; } else { hide Verify; }
  }

  lemma {:induction false} PlayedUnfolds(hmac: Hmac, hash: Hash, s: Scene, moves: seq<Move>, move: Move)
    requires AllPossible(moves) && Possible(move)
    ensures AllPossible(moves + [move])
    ensures Played(hmac, hash, s, moves + [move]) == Next(hmac, hash, Played(hmac, hash, s, moves), move)
    decreases |moves|
  {
    hide Next;
    hide Possible;
    if moves == [] {
      assert moves + [move] == [move] && [move][1..] == [];
      var s' := Next(hmac, hash, s, move);
      assert Played(hmac, hash, s', []) == s';
    } else {
      assert (moves + [move])[1..] == moves[1..] + [move];
      PlayedUnfolds(hmac, hash, Next(hmac, hash, s, moves[0]), moves[1..], move);
    }
  }

  /** The scene before move `k` of a run from the beginning. */
  function Before(hmac: Hmac, hash: Hash, moves: seq<Move>, k: nat): Scene
    requires AllPossible(moves) && k <= |moves|
  {
    Played(hmac, hash, FIRST, moves[..k])
  }

  lemma BeforeNext(hmac: Hmac, hash: Hash, moves: seq<Move>, k: nat)
    requires AllPossible(moves) && k < |moves|
    ensures Before(hmac, hash, moves, k + 1) == Next(hmac, hash, Before(hmac, hash, moves, k), moves[k])
  {
    assert moves[..k + 1] == moves[..k] + [moves[k]];
    hide Next;
    PlayedUnfolds(hmac, hash, FIRST, moves[..k], moves[k]);
    hide Played;
  }

  lemma {:induction false} ConfirmedUpTo(hmac: Hmac, hash: Hash, moves: seq<Move>, k: nat)
    requires AllPossible(moves) && k <= |moves|
    requires forall i :: 0 <= i < k ==> ConfirmsUnchanged(hmac, hash, Before(hmac, hash, moves, i), moves[i])
    ensures SecretConfirmed(Before(hmac, hash, moves, k))
  {
    if k == 0 {
      assert moves[..0] == [];
    } else {
      hide Before;
      hide SecretConfirmed;
      hide ConfirmsUnchanged;
      ConfirmedUpTo(hmac, hash, moves, k - 1);
      BeforeNext(hmac, hash, moves, k - 1);
      NextConfirmed(hmac, hash, Before(hmac, hash, moves, k - 1), moves[k - 1]);
    }
  }

  /**
   Over any run of overlapping requests, an enabled factor always has the secret that was confirmed if and
   only if every confirmation still found the secret that it had read.
   */
  lemma {:induction false} EnabledIsConfirmedIff(hmac: Hmac, hash: Hash, moves: seq<Move>)
    requires AllPossible(moves)
    ensures (forall k :: 0 <= k <= |moves| ==> SecretConfirmed(Before(hmac, hash, moves, k)))
       <==> (forall k :: 0 <= k < |moves| ==> ConfirmsUnchanged(hmac, hash, Before(hmac, hash, moves, k), moves[k]))
  {
    hide Before;
    hide SecretConfirmed;
    hide ConfirmsUnchanged;
    if forall k :: 0 <= k < |moves| ==> ConfirmsUnchanged(hmac, hash, Before(hmac, hash, moves, k), moves[k]) {
      forall k | 0 <= k <= |moves| ensures SecretConfirmed(Before(hmac, hash, moves, k)) {
        ConfirmedUpTo(hmac, hash, moves, k);
      }
    } else {
      var k :| 0 <= k < |moves| && !ConfirmsUnchanged(hmac, hash, Before(hmac, hash, moves, k), moves[k]);
      BeforeNext(hmac, hash, moves, k);
      if SecretConfirmed(Before(hmac, hash, moves, k)) {
        NextConfirmed(hmac, hash, Before(hmac, hash, moves, k), moves[k]);
        assert !SecretConfirmed(Before(hmac, hash, moves, k + 1));
      }
    }
  }

  /** The move writes the secret: an enrolment begins, or the factor is disabled. */
  predicate Rewrites(s: Scene, move: Move) {
    move.Finish? && move.call in s.calls
    && (move.event.DisableEvent? || (move.event.BeginEvent? && !s.calls[move.call].enabled))
  }

  predicate Rewritten(hmac: Hmac, hash: Hash, s: Scene, moves: seq<Move>)
    requires AllPossible(moves)
    decreases |moves|
  {
    moves != [] && (Rewrites(s, moves[0]) || Rewritten(hmac, hash, Next(hmac, hash, s, moves[0]), moves[1..]))
  }

  /** No enrolment of the run draws this secret again. */
  predicate NeverBegun(moves: seq<Move>, secret: string) {
    forall i :: 0 <= i < |moves| && moves[i].Finish? && moves[i].event.BeginEvent? ==>
      Encoding(moves[i].event.key) != secret
  }

  lemma SecretNext(hmac: Hmac, hash: Hash, s: Scene, move: Move, secret: string)
    requires Possible(move) && NeverBegun([move], secret)
    ensures Rewrites(s, move) ==> Next(hmac, hash, s, move).row.secret != Some(secret)
    ensures !Rewrites(s, move) ==> Next(hmac, hash, s, move).row.secret == s.row.secret
  {
    assert move == [move][0];
    hide MatchedCounter;
    hide HashRecoveryCode;
    hide RemoveFirst;
    hide Encoding;
  }

  lemma {:induction false} SecretSince(hmac: Hmac, hash: Hash, s: Scene, moves: seq<Move>, secret: string)
    requires AllPossible(moves) && NeverBegun(moves, secret)
    ensures Played(hmac, hash, s, moves).row.secret == Some(secret)
       <==> s.row.secret == Some(secret) && !Rewritten(hmac, hash, s, moves)
    decreases |moves|
  {
    if moves != [] {
      SecretNext(hmac, hash, s, moves[0], secret);
      hide Next;
      hide Rewrites;
      SecretSince(hmac, hash, Next(hmac, hash, s, moves[0]), moves[1..], secret);
    }
  }

  /** No other move has this call's number, so that it still holds what it has read. */
  predicate Leaves(moves: seq<Move>, call: nat) { forall i :: 0 <= i < |moves| ==> moves[i].call != call }

  lemma {:induction false} CallWaits(hmac: Hmac, hash: Hash, s: Scene, moves: seq<Move>, call: nat)
    requires AllPossible(moves) && Leaves(moves, call) && call in s.calls
    ensures call in Played(hmac, hash, s, moves).calls && Played(hmac, hash, s, moves).calls[call] == s.calls[call]
    decreases |moves|
  {
    if moves != [] {
      assert moves[0].call != call;
      hide Written;
      hide Confirms;
      CallWaits(hmac, hash, Next(hmac, hash, s, moves[0]), moves[1..], call);
    }
  }

  /**
   A confirmation enables the secret that it has checked if and only if, between its read and its write,
   no enrolment began and the factor was not disabled.
   */
  lemma ConfirmsItsSecretIff(
    hmac: Hmac, hash: Hash, s: Scene, call: nat, during: seq<Move>, code: string, now: nat, codes: seq<string>)
    requires AllPossible(during) && Leaves(during, call) && now >= 1 && |codes| == RECOVERY_CODE_COUNT
    requires s.row.secret.Some? && NeverBegun(during, s.row.secret.value)
    requires Confirms(hmac, hash, Played(hmac, hash, AfterRead(s, call), during),
                      Finish(call, ConfirmEvent(code, now, codes)))
    ensures var before := Played(hmac, hash, AfterRead(s, call), during);
            var s' := Next(hmac, hash, before, Finish(call, ConfirmEvent(code, now, codes)));
            && s'.row.enabled && s'.confirmed == s.row.secret
            && (s'.row.secret == s'.confirmed <==> !Rewritten(hmac, hash, AfterRead(s, call), during))
  {
    var before := Played(hmac, hash, AfterRead(s, call), during);
    ReadSees(s, call);
    CallWaits(hmac, hash, AfterRead(s, call), during, call);
    SecretSince(hmac, hash, AfterRead(s, call), during, s.row.secret.value);
    ConfirmWrites(hmac, hash, before, call, code, now, codes);
    hide Played;
    hide Next;
    hide Rewritten;
  }

  lemma ConfirmWrites(hmac: Hmac, hash: Hash, s: Scene, call: nat, code: string, now: nat, codes: seq<string>)
    requires now >= 1 && |codes| == RECOVERY_CODE_COUNT
    requires Confirms(hmac, hash, s, Finish(call, ConfirmEvent(code, now, codes)))
    ensures var s' := Next(hmac, hash, s, Finish(call, ConfirmEvent(code, now, codes)));
            s'.row.enabled && s'.row.secret == s.row.secret && s'.confirmed == s.calls[call].secret
  {
    hide Confirm;
  }

  /** A factor disabled while its confirmation is under way ends up enabled without any secret. */
  lemma DisabledWhileConfirming(hmac: Hmac, hash: Hash, key: seq<byte>, counter: nat, codes: seq<string>)
    requires |codes| == RECOVERY_CODE_COUNT
    ensures var pending := Scene(FRESH.row.(secret := Some(Encoding(key))), map[], None);
            var confirm := ConfirmEvent(Code(hmac, key, counter), counter + 1, codes);
            var moves := [Read(0), Read(1), Finish(1, DisableEvent), Finish(0, confirm)];
            var row := Played(hmac, hash, pending, moves).row;
            row.enabled && row.secret.None?
  {
    var pending := Scene(FRESH.row.(secret := Some(Encoding(key))), map[], None);
    var confirm := ConfirmEvent(Code(hmac, key, counter), counter + 1, codes);
    var read := AfterRead(AfterRead(pending, 0), 1);
    var disabled := Next(hmac, hash, read, Finish(1, DisableEvent));
    PendingConfirms(hmac, hash, pending.row, key, counter, codes);
    hide Encoding;
    hide Code;
    hide Confirm;
    assert disabled.row.secret.None? && 0 in disabled.calls && disabled.calls[0] == pending.row;
    ConfirmWrites(hmac, hash, disabled, 0, Code(hmac, key, counter), counter + 1, codes);
    hide *;
    FourMoves(hmac, hash, pending, 0, 1, Finish(1, DisableEvent), Finish(0, confirm));
  }

  lemma PendingConfirms(hmac: Hmac, hash: Hash, row: Row, key: seq<byte>, counter: nat, codes: seq<string>)
    requires row.secret == Some(Encoding(key)) && !row.enabled
    ensures Confirm(hmac, hash, row, Code(hmac, key, counter), counter + 1, codes).1
  {
    Base32RoundTrip(key);
    OwnCodeIsTaken(hmac, key, counter, None);
    hide Encoding;
    hide Decoding;
    hide Code;
    hide Verified;
    hide HashRecoveryCode;
    assert KeyOf(row) == Some(key);
  }

  lemma FourMoves(hmac: Hmac, hash: Hash, s: Scene, i: nat, j: nat, a: Move, b: Move)
    requires Possible(a) && Possible(b)
    ensures AllPossible([Read(i), Read(j), a, b])
    ensures Played(hmac, hash, s, [Read(i), Read(j), a, b])
         == Next(hmac, hash, Next(hmac, hash, AfterRead(AfterRead(s, i), j), a), b)
  {
    var s1 := AfterRead(s, i);
    var s2 := AfterRead(s1, j);
    var s3 := Next(hmac, hash, s2, a);
    ReadNext(hmac, hash, s, i);
    ReadNext(hmac, hash, s1, j);
    hide *;
    NothingPlayed(hmac, hash, Next(hmac, hash, s3, b));
    PlayedFirst(hmac, hash, s3, b, []);
    PlayedFirst(hmac, hash, s2, a, [b]);
    PlayedFirst(hmac, hash, s1, Read(j), [a, b]);
    PlayedFirst(hmac, hash, s, Read(i), [Read(j), a, b]);
    assert [Read(i), Read(j), a, b] == [Read(i)] + [Read(j), a, b] && [Read(j), a, b] == [Read(j)] + [a, b];
    assert [a, b] == [a] + [b] && [b] == [b] + [];
  }

  lemma ReadNext(hmac: Hmac, hash: Hash, s: Scene, call: nat)
    ensures Possible(Read(call)) && Next(hmac, hash, s, Read(call)) == AfterRead(s, call)
  {
  }

  lemma NothingPlayed(hmac: Hmac, hash: Hash, s: Scene)
    ensures AllPossible([]) && Played(hmac, hash, s, []) == s && AllAccepted(hmac, hash, s, []) == []
  {
  }

  lemma PlayedFirst(hmac: Hmac, hash: Hash, s: Scene, move: Move, rest: seq<Move>)
    requires AllPossible(rest) && Possible(move)
    ensures AllPossible([move] + rest)
    ensures Played(hmac, hash, s, [move] + rest) == Played(hmac, hash, Next(hmac, hash, s, move), rest)
  {
    hide Next;
    hide Possible;
    assert ([move] + rest)[1..] == rest;
  }
}
