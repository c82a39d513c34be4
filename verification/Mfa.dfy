/** The second factor of one user: enrolment, verification, recovery codes, and every run over them. */
module Mfa {
  import opened Base32
  import opened Bits
  import opened Lists
  import opened Options
  import opened Text
  import opened Totp

  /** The hash under which recovery codes are stored, as the database sees it. */
  type Hash = string -> string

  /** The user's MFA columns. */
  datatype Row =
    Row(secret: Option<string>, enabled: bool, lastCounter: Option<nat>, recoveryCodes: Option<seq<string>>)

  const RECOVERY_CODE_COUNT := 10

  datatype Factor = TotpFactor | RecoveryFactor

  function UpperCase(s: string): string { if s == "" then "" else [Upper(s[0])] + UpperCase(s[1..]) }

  function WithoutBlanksAndDashes(s: string): string {
    if s == "" then "" else (if Blank(s[0]) || s[0] == '-' then "" else [s[0]]) + WithoutBlanksAndDashes(s[1..])
  }

  /** Case, spaces and dashes do not matter. */
  function NormalizeRecoveryCode(code: string): string { UpperCase(WithoutBlanksAndDashes(code)) }

  function HashRecoveryCode(hash: Hash, code: string): string { hash(NormalizeRecoveryCode(code)) }

  function HashAll(hash: Hash, codes: seq<string>): (hashes: seq<string>)
    ensures |hashes| == |codes| && forall i :: 0 <= i < |codes| ==> hashes[i] == HashRecoveryCode(hash, codes[i])
  {
    seq(|codes|, i requires 0 <= i < |codes| => HashRecoveryCode(hash, codes[i]))
  }

  predicate Filler(c: char) { Blank(c) || c == '-' }

  lemma {:induction false} StripConcat(a: string, b: string)
    ensures WithoutBlanksAndDashes(a + b) == WithoutBlanksAndDashes(a) + WithoutBlanksAndDashes(b)
  {
    if a == "" {
      assert a + b == b;
    } else {
      StripFirst(a);
      StripFirst(a + b);
      hide *;
      StripConcat(a[1..], b);
      AppendHead(a, b);
      AppendAssociative(KeptChar(a[0]), WithoutBlanksAndDashes(a[1..]), WithoutBlanksAndDashes(b));
    }
  }

  function KeptChar(c: char): string { if Filler(c) then "" else [c] }

  lemma StripFirst(s: string)
    requires s != ""
    ensures WithoutBlanksAndDashes(s) == KeptChar(s[0]) + WithoutBlanksAndDashes(s[1..])
  {
  }

  lemma {:induction false} StripFiller(filler: string)
    requires forall c :: c in filler ==> Filler(c)
    ensures WithoutBlanksAndDashes(filler) == ""
  {
    if filler != "" {
      assert filler[0] in filler;
      StripFiller(filler[1..]);
    }
  }

  lemma {:induction false} CaseNormalizes(s: string, t: string)
    requires |s| == |t| && forall i :: 0 <= i < |s| ==> SameLetter(s[i], t[i])
    ensures NormalizeRecoveryCode(s) == NormalizeRecoveryCode(t)
  {
    if s != "" {
      SameHead(s[0], t[0]);
      hide *;
      CaseNormalizes(s[1..], t[1..]);
      NormalizeFirst(s);
      NormalizeFirst(t);
    }
  }

  lemma SameHead(c: char, d: char)
    requires SameLetter(c, d)
    ensures UpperCase(KeptChar(c)) == UpperCase(KeptChar(d))
  {
    SameLetterIff(c, d);
    assert Filler(c) <==> Filler(d);
    hide *;
    CaseOfOne(c);
    CaseOfOne(d);
  }

  lemma CaseOfOne(c: char)
    ensures UpperCase(KeptChar(c)) == if Filler(c) then "" else [Upper(c)]
  {
    hide Upper;
    hide Filler;
    assert [c][1..] == "";
  }

  lemma NormalizeFirst(s: string)
    requires s != ""
    ensures NormalizeRecoveryCode(s) == UpperCase(KeptChar(s[0])) + NormalizeRecoveryCode(s[1..])
  {
    var rest := WithoutBlanksAndDashes(s[1..]);
    if !Filler(s[0]) {
      assert WithoutBlanksAndDashes(s) == [s[0]] + rest;
      assert ([s[0]] + rest)[1..] == rest && [s[0]][1..] == "";
    } else {
      assert WithoutBlanksAndDashes(s) == rest;
    }
  }

  /** However a recovery code is grouped, spaced or cased when typed back, it hashes to the same entry. */
  lemma TypingDoesNotMatter(hash: Hash, a: string, filler: string, b: string, typed: string)
    requires forall c :: c in filler ==> Filler(c)
    requires |typed| == |a| && forall i :: 0 <= i < |a| ==> SameLetter(typed[i], a[i])
    ensures HashRecoveryCode(hash, a + filler + b) == HashRecoveryCode(hash, a + b)
    ensures HashRecoveryCode(hash, typed) == HashRecoveryCode(hash, a)
  {
    hide WithoutBlanksAndDashes;
    hide UpperCase;
    StripConcat(a + filler, b);
    StripConcat(a, filler);
    StripConcat(a, b);
    StripFiller(filler);
    assert WithoutBlanksAndDashes(a) + "" == WithoutBlanksAndDashes(a);
    CaseNormalizes(typed, a);
  }

  // ---- one step on the row -----------------------------------------------------------------------------

  datatype Began = AlreadyEnabled | Pending(secret: string)

  /** A fresh secret, stored unconfirmed; refused on an account that already has a confirmed factor. */
  function Begin(row: Row, key: seq<byte>): (Row, Began) {
    if row.enabled then (row, AlreadyEnabled)
    else (row.(secret := Some(Encoding(key)), enabled := false, lastCounter := None), Pending(Encoding(key)))
  }

  /** The key behind a stored secret, when it decodes. */
  function KeyOf(row: Row): Option<seq<byte>> { if row.secret.None? then None else Decoding(row.secret.value) }

  /** The counter a code matches on a row, if its secret can be read. */
  function MatchedCounter(hmac: Hmac, row: Row, code: string, now: nat, notBefore: Option<nat>): Option<nat>
    requires now >= 1
  {
    match KeyOf(row)
    case None => None
    case Some(key) => Verified(hmac, key, code, now, notBefore)
  }

  /** Enables the factor when the code belongs to the pending secret, and stores the hashes of new recovery codes. */
  function Confirm(hmac: Hmac, hash: Hash, row: Row, code: string, now: nat, codes: seq<string>): (Row, bool)
    requires now >= 1
  {
    if row.secret.None? || row.enabled then (row, false)
    else
      match MatchedCounter(hmac, row, code, now, None)
      case None => (row, false)
      case Some(counter) =>
        (row.(enabled := true, lastCounter := Some(counter), recoveryCodes := Some(HashAll(hash, codes))), true)
  }

  /** The first entry equal to `submitted` taken out, the others left in place. */
  function RemoveFirst(stored: seq<string>, submitted: string): seq<string> {
    if stored == [] then []
    else if stored[0] == submitted then stored[1..] else [stored[0]] + RemoveFirst(stored[1..], submitted)
  }

  function Stored(row: Row): seq<string> { if row.recoveryCodes.None? then [] else row.recoveryCodes.value }

  /** A code of a step not used yet, or else one of the recovery codes, which is used up. */
  function Verify(hmac: Hmac, hash: Hash, row: Row, code: string, now: nat): (Row, Option<Factor>)
    requires now >= 1
  {
    if !row.enabled || row.secret.None? then (row, None)
    else
      match MatchedCounter(hmac, row, code, now, row.lastCounter)
      case Some(counter) => (row.(lastCounter := Some(counter)), Some(TotpFactor))
      case None =>
        if HashRecoveryCode(hash, code) in Stored(row) then
          (row.(recoveryCodes := Some(RemoveFirst(Stored(row), HashRecoveryCode(hash, code)))), Some(RecoveryFactor))
        else (row, None)
  }

  function Regenerate(hash: Hash, row: Row, codes: seq<string>): (Row, bool) {
    if !row.enabled then (row, false) else (row.(recoveryCodes := Some(HashAll(hash, codes))), true)
  }

  function Disable(row: Row): Row { Row(None, false, None, None) }

  // ---- removing a recovery code -------------------------------------------------------------------------------

  /** What will be left of the entries still to scan. */
  function Rest(entries: seq<string>, matched: bool, submitted: string): seq<string> {
    if matched then entries else RemoveFirst(entries, submitted)
  }

  lemma ScanNext(entries: seq<string>, matched: bool, submitted: string)
    requires entries != []
    ensures Rest(entries, matched, submitted)
         == if !matched && entries[0] == submitted then Rest(entries[1..], true, submitted)
            else [entries[0]] + Rest(entries[1..], matched, submitted)
  {
  }

  lemma NothingToScan(stored: seq<string>, matched: bool, submitted: string)
    ensures Rest(stored[|stored|..], matched, submitted) == []
    ensures stored[0..] == stored && Rest(stored, false, submitted) == RemoveFirst(stored, submitted)
  {
  }

  /** Scans the whole list; only the first match is left out. */
  method FilterMatched(stored: seq<string>, submitted: string) returns (remaining: seq<string>, matched: bool)
    ensures matched <==> submitted in stored
    ensures remaining == RemoveFirst(stored, submitted)
  {
    hide *;
    matched := false;
    remaining := [];
    NothingToScan(stored, matched, submitted);
    for i := 0 to |stored|
      invariant matched <==> exists k :: 0 <= k < i && stored[k] == submitted
      invariant remaining + Rest(stored[i..], matched, submitted) == RemoveFirst(stored, submitted)
    {
      ScanNext(stored[i..], matched, submitted);
      assert stored[i..][1..] == stored[i + 1..];
      if !matched && stored[i] == submitted {
        matched := true;
      } else {
        remaining := remaining + [stored[i]];
      }
    }
    NothingToScan(stored, matched, submitted);
    assert remaining + [] == remaining;
  }

  /** Exactly one entry goes, the first that matches, and the rest keep their order. */
  lemma {:induction false} RemovesExactlyOne(stored: seq<string>, submitted: string) returns (i: nat)
    requires submitted in stored
    ensures i < |stored| && stored[i] == submitted && submitted !in stored[..i]
    ensures RemoveFirst(stored, submitted) == stored[..i] + stored[i + 1..]
  {
    if stored[0] == submitted {
      i := 0;
    } else {
      i := RemovesExactlyOne(stored[1..], submitted);
      assert stored[1..][..i] == stored[1..i + 1] && stored[1..][i + 1..] == stored[i + 2..];
      assert stored[..i + 1] == [stored[0]] + stored[1..i + 1];
      i := i + 1;
    }
  }

  // ---- which texts belong to a recovery code --------------------------------------------------------------------

  /** White space and dashes are left out. */
  predicate Skipped(c: char) { c in " \t\n\r\U{0b}\U{0c}-" }

  /** The same character but for letter case. */
  predicate SameLetter(c: char, d: char) {
    c == d || ('a' <= c <= 'z' && d as int == c as int - 32) || ('a' <= d <= 'z' && c as int == d as int - 32)
  }

  /** Equal, character by character, but for what is skipped and for letter case. */
  predicate SameCode(a: string, b: string)
    decreases |a| + |b|
  {
    if a != "" && Skipped(a[0]) then SameCode(a[1..], b)
    else if b != "" && Skipped(b[0]) then SameCode(a, b[1..])
    else if a == "" || b == "" then a == b
    else SameLetter(a[0], b[0]) && SameCode(a[1..], b[1..])
  }

  lemma SameLetterIff(c: char, d: char)
    ensures Upper(c) == Upper(d) <==> SameLetter(c, d)
    ensures Filler(c) <==> Skipped(c)
  {
  }

  lemma NormalizedFirst(s: string)
    requires s != ""
    ensures Skipped(s[0]) ==> NormalizeRecoveryCode(s) == NormalizeRecoveryCode(s[1..])
    ensures !Skipped(s[0]) ==> NormalizeRecoveryCode(s) == [Upper(s[0])] + NormalizeRecoveryCode(s[1..])
  {
    NormalizeFirst(s);
    CaseOfOne(s[0]);
    SameLetterIff(s[0], s[0]);
    hide NormalizeRecoveryCode;
    hide UpperCase;
    hide KeptChar;
    hide Filler;
    hide Skipped;
  }

  lemma NothingNormalized()
    ensures NormalizeRecoveryCode("") == ""
  {
  }

  /** Two texts are stored alike exactly when they are the same code. */
  lemma {:induction false} NormalizedAlikeIff(a: string, b: string)
    ensures NormalizeRecoveryCode(a) == NormalizeRecoveryCode(b) <==> SameCode(a, b)
    decreases |a| + |b|
  {
    hide NormalizeRecoveryCode;
    hide Skipped;
    hide Upper;
    hide SameLetter;
    NothingNormalized();
    if a != "" { NormalizedFirst(a); }
    if b != "" { NormalizedFirst(b); }
    if a != "" && Skipped(a[0]) {
      NormalizedAlikeIff(a[1..], b);
    } else if b != "" && Skipped(b[0]) {
      NormalizedAlikeIff(a, b[1..]);
    } else if a != "" && b != "" {
      NormalizedAlikeIff(a[1..], b[1..]);
      SameLetterIff(a[0], b[0]);
      FirstAndRest(Upper(a[0]), NormalizeRecoveryCode(a[1..]), Upper(b[0]), NormalizeRecoveryCode(b[1..]));
    }
  }

  lemma FirstAndRest(c: char, s: string, d: char, t: string)
    ensures [c] + s == [d] + t <==> c == d && s == t
  {
    assert ([c] + s)[1..] == s && ([d] + t)[1..] == t && ([c] + s)[0] == c && ([d] + t)[0] == d;
  }

  ghost predicate Injective(hash: Hash) { forall s, t :: hash(s) == hash(t) ==> s == t }

  lemma EntryIs(hash: Hash, codes: seq<string>, code: string, i: nat)
    requires Injective(hash) && i < |codes|
    ensures HashAll(hash, codes)[i] == HashRecoveryCode(hash, code) <==> SameCode(code, codes[i])
  {
    NormalizedAlikeIff(code, codes[i]);
    hide NormalizeRecoveryCode;
    hide SameCode;
  }

  predicate FirstSame(code: string, codes: seq<string>, i: int) {
    0 <= i < |codes| && SameCode(code, codes[i]) && forall k :: 0 <= k < i ==> !SameCode(code, codes[k])
  }

  /**
   A text that belongs to no time step lets the user in exactly when it is one of the recovery codes left,
   but for blanks, dashes and letter case; then the first such code is used up, and no other.
   */
  lemma RecoveryCodeRecognizedIff(
      hmac: Hmac, hash: Hash, row: Row, codes: seq<string>, code: string, now: nat)
    requires Injective(hash) && now >= 1 && row.enabled && row.secret.Some?
    requires row.recoveryCodes == Some(HashAll(hash, codes))
    requires MatchedCounter(hmac, row, code, now, row.lastCounter).None?
    ensures var (after, factor) := Verify(hmac, hash, row, code, now);
      && (factor == Some(RecoveryFactor) <==> exists i :: 0 <= i < |codes| && SameCode(code, codes[i]))
      && (factor == Some(RecoveryFactor) || (factor == None && after == row))
      && forall i :: FirstSame(code, codes, i) ==>
           after == row.(recoveryCodes := Some(HashAll(hash, codes[..i] + codes[i + 1..])))
  {
    var entries, entry := HashAll(hash, codes), HashRecoveryCode(hash, code);
    forall i | 0 <= i < |codes| ensures entries[i] == entry <==> SameCode(code, codes[i]) {
      EntryIs(hash, codes, code, i);
    }
    VerifyUnmatched(hmac, hash, row, code, now);
    assert Stored(row) == entries;
    hide Verify;
    hide MatchedCounter;
    hide HashRecoveryCode;
    hide RemoveFirst;
    hide SameCode;
    hide FirstSame;
    if entry in entries {
      var first := RemovesExactlyOne(entries, entry);
      RestHashes(hash, codes, first);
      forall i | FirstSame(code, codes, i) ensures i == first { FirstIs(codes, code, entries, entry, first, i); }
    } else {
      NoneSame(codes, code, entries, entry);
    }
  }

  lemma VerifyUnmatched(hmac: Hmac, hash: Hash, row: Row, code: string, now: nat)
    requires now >= 1 && row.enabled && row.secret.Some?
    requires MatchedCounter(hmac, row, code, now, row.lastCounter).None?
    ensures var entry := HashRecoveryCode(hash, code);
            Verify(hmac, hash, row, code, now)
            == if entry in Stored(row)
               then (row.(recoveryCodes := Some(RemoveFirst(Stored(row), entry))), Some(RecoveryFactor))
               else (row, None)
  {
    hide MatchedCounter;
    hide HashRecoveryCode;
    hide RemoveFirst;
  }

  lemma RestHashes(hash: Hash, codes: seq<string>, i: nat)
    requires i < |codes|
    ensures HashAll(hash, codes[..i] + codes[i + 1..]) == HashAll(hash, codes)[..i] + HashAll(hash, codes)[i + 1..]
  {
    hide HashRecoveryCode;
  }

  lemma FirstIs(codes: seq<string>, code: string, entries: seq<string>, entry: string, first: nat, i: int)
    requires |entries| == |codes| && forall k :: 0 <= k < |codes| ==>
          (entries[k] == entry <==> SameCode(code, codes[k]))
    requires first < |entries| && entries[first] == entry && entry !in entries[..first] && FirstSame(code, codes, i)
    ensures i == first
  {
    hide SameCode;
    assert forall k :: 0 <= k < first ==> entries[..first][k] == entries[k];
  }

  lemma NoneSame(codes: seq<string>, code: string, entries: seq<string>, entry: string)
    requires |entries| == |codes| && forall k :: 0 <= k < |codes| ==>
          (entries[k] == entry <==> SameCode(code, codes[k]))
    requires entry !in entries
    ensures forall i :: !FirstSame(code, codes, i)
  {
    hide SameCode;
  }

  // ---- runs -----------------------------------------------------------------------------------------------------

  /** One request of the user, with the time step it arrives in and the randomness it draws. */
  datatype Event =
    | BeginEvent(key: seq<byte>)
    | ConfirmEvent(code: string, now: nat, codes: seq<string>)
    | VerifyEvent(code: string, now: nat)
    | RegenerateEvent(codes: seq<string>)
    | DisableEvent

  /** Requests arrive after the first step of 1970, and ten recovery codes are drawn at a time. */
  predicate Proper(e: Event) {
    match e
    case ConfirmEvent(_, now, codes) => now >= 1 && |codes| == RECOVERY_CODE_COUNT
    case VerifyEvent(_, now) => now >= 1
    case RegenerateEvent(codes) => |codes| == RECOVERY_CODE_COUNT
    case _ => true
  }

  /**
   The row, and what happened since: the counters accepted in this enrolment, the recovery codes drawn and used
   of this set.
   */
  datatype State = State(row: Row, accepted: seq<nat>, drawn: seq<string>, used: seq<string>)

  const FRESH := State(Row(None, false, None, None), [], [], [])

  function Step(hmac: Hmac, hash: Hash, s: State, e: Event): State
    requires Proper(e)
  {
    match e
    case BeginEvent(key) =>
      if s.row.enabled then s else s.(row := Begin(s.row, key).0, accepted := [])
    case ConfirmEvent(code, now, codes) =>
      var (row, ok) := Confirm(hmac, hash, s.row, code, now, codes);
      if ok then State(row, if row.lastCounter.Some? then [row.lastCounter.value] else [], HashAll(hash, codes), [])
      else s
    case VerifyEvent(code, now) =>
      var (row, factor) := Verify(hmac, hash, s.row, code, now);
      if factor.None? then s
      else if factor.value.TotpFactor? then
        s.(row := row, accepted := s.accepted + (if row.lastCounter.Some? then [row.lastCounter.value] else []))
      else s.(row := row, used := s.used + [HashRecoveryCode(hash, code)])
    case RegenerateEvent(codes) =>
      var (row, ok) := Regenerate(hash, s.row, codes);
      if ok then s.(row := row, drawn := HashAll(hash, codes), used := []) else s
    case DisableEvent => State(Disable(s.row), [], [], [])
  }

  predicate AllProper(es: seq<Event>) { forall i :: 0 <= i < |es| ==> Proper(es[i]) }

  function Run(hmac: Hmac, hash: Hash, es: seq<Event>): State
    requires AllProper(es)
  {
    if es == [] then FRESH else Step(hmac, hash, Run(hmac, hash, es[..|es| - 1]), es[|es| - 1])
  }

  /**
   An enabled factor has a readable secret, a counter and a code list; one that is not has neither counter nor
   codes.
   */
  predicate RowInv(row: Row) {
    && (row.enabled ==> row.secret.Some? && row.lastCounter.Some? && row.recoveryCodes.Some?)
    && (!row.enabled ==> row.lastCounter.None? && row.recoveryCodes.None?)
    && (row.secret.Some? ==> KeyOf(row).Some?)
  }

  predicate Increasing(cs: seq<nat>) { forall i, j :: 0 <= i < j < |cs| ==> cs[i] < cs[j] }

  /** The accepted counters increase strictly, and the row holds the last of them. */
  predicate CounterInv(s: State) {
    Increasing(s.accepted)
    && (s.row.enabled ==> |s.accepted| > 0 && s.row.lastCounter == Some(s.accepted[|s.accepted| - 1]))
    && (!s.row.enabled ==> s.accepted == [])
  }

  /** Every code drawn is either still stored or was used, once for each copy. */
  predicate Balanced(drawn: seq<string>, stored: seq<string>, used: seq<string>) {
    multiset(drawn) == multiset(stored) + multiset(used)
  }

  predicate CodesInv(s: State) {
    && Balanced(s.drawn, Stored(s.row), s.used)
    && (s.row.enabled ==> |s.drawn| == RECOVERY_CODE_COUNT)
    && (!s.row.enabled ==> s.drawn == [] && s.used == [])
  }

  lemma FreshSecretDecodes(key: seq<byte>)
    ensures Decoding(Encoding(key)).Some?
  {
    Base32RoundTrip(key);
  }

  lemma StepKeepsRow(hmac: Hmac, hash: Hash, s: State, e: Event)
    requires Proper(e) && RowInv(s.row)
    ensures RowInv(Step(hmac, hash, s, e).row)
  {
    hide Decoding;
    hide Encoding;
    hide Verified;
    hide HashRecoveryCode;
    if e.BeginEvent? { FreshSecretDecodes(e.key); }
  }

  lemma Appended(cs: seq<nat>, c: nat)
    requires Increasing(cs) && (|cs| > 0 ==> cs[|cs| - 1] < c)
    ensures Increasing(cs + [c])
  {
  }

  lemma MatchedIsLater(hmac: Hmac, row: Row, code: string, now: nat, notBefore: Option<nat>)
    requires now >= 1
    ensures MatchedCounter(hmac, row, code, now, notBefore).Some? ==>
          After(MatchedCounter(hmac, row, code, now, notBefore).value, notBefore)
  {
    if KeyOf(row).Some? { VerifiedIsAnEarliestMatch(hmac, KeyOf(row).value, code, now, notBefore); }
  }

  lemma StepKeepsCounters(hmac: Hmac, hash: Hash, s: State, e: Event)
    requires Proper(e) && RowInv(s.row) && CounterInv(s)
    ensures CounterInv(Step(hmac, hash, s, e))
  {
    hide KeyOf;
    hide Encoding;
    hide MatchedCounter;
    hide HashRecoveryCode;
    if e.VerifyEvent? && s.row.enabled {
      MatchedIsLater(hmac, s.row, e.code, e.now, s.row.lastCounter);
      var c := MatchedCounter(hmac, s.row, e.code, e.now, s.row.lastCounter);
      if c.Some? { Appended(s.accepted, c.value); }
    }
  }

  lemma RemovalCounts(stored: seq<string>, submitted: string)
    requires submitted in stored
    ensures multiset(stored) == multiset(RemoveFirst(stored, submitted)) + multiset{submitted}
  {
    var i := RemovesExactlyOne(stored, submitted);
    hide RemoveFirst;
    assert stored == stored[..i] + [submitted] + stored[i + 1..];
  }

  lemma UsedUpKeepsBalance(drawn: seq<string>, stored: seq<string>, used: seq<string>, submitted: string)
    requires submitted in stored && Balanced(drawn, stored, used)
    ensures Balanced(drawn, RemoveFirst(stored, submitted), used + [submitted])
  {
    RemovalCounts(stored, submitted);
    hide RemoveFirst;
  }

  lemma FreshCodesBalance(codes: seq<string>)
    ensures Balanced(codes, codes, [])
  {
  }

  lemma StepKeepsCodes(hmac: Hmac, hash: Hash, s: State, e: Event)
    requires Proper(e) && RowInv(s.row) && CodesInv(s)
    ensures CodesInv(Step(hmac, hash, s, e))
  {
    hide KeyOf;
    hide Encoding;
    hide MatchedCounter;
    hide HashRecoveryCode;
    hide RemoveFirst;
    hide Balanced;
    match e
    case VerifyEvent(code, now) =>
      if HashRecoveryCode(hash, code) in Stored(s.row) {
        UsedUpKeepsBalance(s.drawn, Stored(s.row), s.used, HashRecoveryCode(hash, code));
      }
    case ConfirmEvent(_, _, codes) => FreshCodesBalance(HashAll(hash, codes));
    case RegenerateEvent(codes) => FreshCodesBalance(HashAll(hash, codes));
    case _ => FreshCodesBalance([]);
  }

  lemma {:induction false} RunKeepsInvariants(hmac: Hmac, hash: Hash, es: seq<Event>)
    requires AllProper(es)
    ensures RowInv(Run(hmac, hash, es).row) && CounterInv(Run(hmac, hash, es)) && CodesInv(Run(hmac, hash, es))
  {
    if es != [] {
      hide RowInv;
      hide CounterInv;
      hide CodesInv;
      hide Step;
      RunKeepsInvariants(hmac, hash, es[..|es| - 1]);
      StepKeepsRow(hmac, hash, Run(hmac, hash, es[..|es| - 1]), es[|es| - 1]);
      StepKeepsCounters(hmac, hash, Run(hmac, hash, es[..|es| - 1]), es[|es| - 1]);
      StepKeepsCodes(hmac, hash, Run(hmac, hash, es[..|es| - 1]), es[|es| - 1]);
    }
  }

  /**
   After any run of requests: enabled means a secret, a counter and codes; no time step was accepted twice in
   the enrolment.
   */
  lemma {:induction false} NoStepAcceptedTwice(hmac: Hmac, hash: Hash, es: seq<Event>)
    requires AllProper(es)
    ensures var s := Run(hmac, hash, es);
      && (s.row.enabled ==> KeyOf(s.row).Some? && s.row.lastCounter.Some? && s.row.recoveryCodes.Some?)
      && (forall i, j :: 0 <= i < j < |s.accepted| ==> s.accepted[i] < s.accepted[j])
      && (s.row.enabled ==> s.accepted != [])
  {
    RunKeepsInvariants(hmac, hash, es);
    hide Run;
  }

  /**
   At most ten recovery codes are accepted per set, each drawn for it and as often as it was drawn; what is
   left is the rest.
   */
  lemma {:induction false} RecoveryCodesAreSingleUse(hmac: Hmac, hash: Hash, es: seq<Event>)
    requires AllProper(es)
    ensures var s := Run(hmac, hash, es);
      && |s.used| + |Stored(s.row)| == |s.drawn| <= RECOVERY_CODE_COUNT
      && (forall h :: multiset(s.used)[h] + multiset(Stored(s.row))[h] == multiset(s.drawn)[h])
  {
    RunKeepsInvariants(hmac, hash, es);
    var s := Run(hmac, hash, es);
    hide Run;
    assert |multiset(s.drawn)| == |s.drawn|
        && |multiset(Stored(s.row)) + multiset(s.used)| == |Stored(s.row)| + |s.used|;
  }

  // ---- an enrolment that works ------------------------------------------------------------------------------

  lemma {:induction false} OwnDigits(s: string)
    requires AllDigits(s)
    ensures WithoutBlanks(s) == s
  {
    if s != "" {
      OwnDigits(s[1..]);
      assert IsDigit(s[0]) && [s[0]] + s[1..] == s;
    }
  }

  /** The code of a step, shown in the step behind it, is taken for that step as long as it is unused. */
  lemma OwnCodeIsTaken(hmac: Hmac, key: seq<byte>, counter: nat, notBefore: Option<nat>)
    requires After(counter, notBefore)
    ensures Verified(hmac, key, Code(hmac, key, counter), counter + 1, notBefore) == Some(counter)
  {
    CodeHasSixDigitsFor(hmac, key, counter);
    OwnDigits(Code(hmac, key, counter));
    hide Code;
    hide WithoutBlanks;
  }

  /** Beginning, confirming and verifying with the secret's own codes enables the factor and accepts both steps. */
  lemma EnrolmentWorks(hmac: Hmac, hash: Hash, key: seq<byte>, counter: nat, later: nat, codes: seq<string>)
    requires counter < later && |codes| == RECOVERY_CODE_COUNT
    ensures var events := [BeginEvent(key), ConfirmEvent(Code(hmac, key, counter), counter + 1, codes),
                           VerifyEvent(Code(hmac, key, later), later + 1)];
            var s := Run(hmac, hash, events);
            && s.row.enabled && s.accepted == [counter, later] && s.row.recoveryCodes == Some(HashAll(hash, codes))
  {
    hide *;
    var first, second, code, again := counter + 1, later + 1, Code(hmac, key, counter), Code(hmac, key, later);
    ProperEvents(key, code, first, codes, again, second);
    RunThree(hmac, hash, BeginEvent(key), ConfirmEvent(code, first, codes), VerifyEvent(again, second));
    FreshSecretIs(key);
    NoneBefore(counter, later);
    OwnCodeIsTaken(hmac, key, counter, None);
    OwnCodeIsTaken(hmac, key, later, Some(counter));
    BegunStep(hmac, hash, key);
    var pending := Step(hmac, hash, FRESH, BeginEvent(key));
    ConfirmedStep(hmac, hash, pending, key, code, first, counter, codes);
    VerifiedStep(hmac, hash, Step(hmac, hash, pending, ConfirmEvent(code, first, codes)), key, again, second, later);
  }

  lemma ProperEvents(key: seq<byte>, code: string, first: nat, codes: seq<string>, again: string, second: nat)
    requires first >= 1 && second >= 1 && |codes| == RECOVERY_CODE_COUNT
    ensures Proper(BeginEvent(key)) && Proper(ConfirmEvent(code, first, codes)) && Proper(VerifyEvent(again, second))
  {
  }

  lemma NoneBefore(counter: nat, later: nat)
    ensures After(counter, None) && (counter < later ==> After(later, Some(counter)))
  {
  }

  lemma RunThree(hmac: Hmac, hash: Hash, a: Event, b: Event, c: Event)
    requires Proper(a) && Proper(b) && Proper(c)
    ensures AllProper([a, b, c])
    ensures Run(hmac, hash, [a, b, c])
         == Step(hmac, hash, Step(hmac, hash, Step(hmac, hash, FRESH, a), b), c)
  {
    hide Step;
    hide Proper;
    assert [a, b, c][..2] == [a, b] && [a, b][..1] == [a] && [a][..0] == [];
    assert AllProper([a]) && AllProper([a, b]);
    assert Run(hmac, hash, [a]) == Step(hmac, hash, FRESH, a);
    assert Run(hmac, hash, [a, b]) == Step(hmac, hash, Run(hmac, hash, [a]), b);
  }

  lemma BegunStep(hmac: Hmac, hash: Hash, key: seq<byte>)
    ensures var s := Step(hmac, hash, FRESH, BeginEvent(key));
            !s.row.enabled && s.row.secret == Some(Encoding(key))
  {
    hide Encoding;
  }

  lemma ConfirmedStep(
      hmac: Hmac, hash: Hash, s: State, key: seq<byte>, code: string, now: nat, counter: nat, codes: seq<string>)
    requires now >= 1 && |codes| == RECOVERY_CODE_COUNT && !s.row.enabled && s.row.secret == Some(Encoding(key))
    requires Decoding(Encoding(key)) == Some(key) && Verified(hmac, key, code, now, None) == Some(counter)
    ensures var t := Step(hmac, hash, s, ConfirmEvent(code, now, codes));
            && t.row.enabled && t.row.secret == s.row.secret && t.row.lastCounter == Some(counter)
            && t.row.recoveryCodes == Some(HashAll(hash, codes)) && t.accepted == [counter]
  {
    hide Encoding;
    hide Decoding;
    hide Verified;
    hide HashRecoveryCode;
  }

  lemma VerifiedStep(hmac: Hmac, hash: Hash, s: State, key: seq<byte>, code: string, now: nat, counter: nat)
    requires now >= 1 && s.row.enabled && s.row.secret == Some(Encoding(key))
    requires Decoding(Encoding(key)) == Some(key) && Verified(hmac, key, code, now, s.row.lastCounter) == Some(counter)
    ensures var t := Step(hmac, hash, s, VerifyEvent(code, now));
            t.row == s.row.(lastCounter := Some(counter)) && t.accepted == s.accepted + [counter]
  {
    hide Encoding;
    hide Decoding;
    hide Verified;
    hide HashRecoveryCode;
  }

  lemma FreshSecretIs(key: seq<byte>)
    ensures Decoding(Encoding(key)) == Some(key)
  {
    Base32RoundTrip(key);
  }
}
