/** Time-based one-time passwords (RFC 6238): the code of a counter, and checking a submitted code. */
module Totp {
  import opened Base32
  import opened Bits
  import opened IpPrefix
  import opened Options
  import opened Text

  const STEP_SECONDS := 30
  const DIGITS: nat := 6
  const SKEW_STEPS := 1

  /** The time step of a moment given in milliseconds: it lasts thirty seconds from its own multiple on. */
  function CounterFor(millis: nat): (counter: nat)
    ensures counter * 30_000 <= millis < (counter + 1) * 30_000
  {
    millis / 1000 / STEP_SECONDS
  }

  /** What the keyed hash produces. */
  type digest = d: seq<byte> | |d| == 20 witness seq(20, _ => 0)

  type Hmac = (seq<byte>, seq<byte>) -> digest

  // ---- the counter as eight bytes ------------------------------------------------------------------

  /** A number as `n` bytes, most significant first. */
  function BigEndian(v: nat, n: nat): (bytes: seq<byte>)
    ensures |bytes| == n
  {
    if n == 0 then [] else BigEndian(v / 256, n - 1) + [v % 256]
  }

  /** They denote the number, as long as it fits. */
  lemma {:induction false} BigEndianValue(v: nat, n: nat)
    requires v < Pow2(8 * n)
    ensures Value(BigEndian(v, n)) == v
  {
    if n > 0 {
      Pow2Sum(8 * (n - 1), 8);
      Pow2Of5And8();
      BigEndianValue(v / 256, n - 1);
      assert BigEndian(v, n)[..n - 1] == BigEndian(v / 256, n - 1);
    }
  }

  lemma {:induction false} BigEndianSplit(v: nat, m: nat, n: nat)
    ensures BigEndian(v, m + n) == BigEndian(Quo(v, Pow2(8 * n)), m) + BigEndian(v, n)
    decreases n
  {
    if n == 0 {
      QuoFrom(v, 1, v, 0);
    } else {
      BigEndianSplit(v / 256, m, n - 1);
      Pow2Of5And8();
      Pow2Sum(8, 8 * (n - 1));
      assert Quo(v, 256) == v / 256;
      hide Quo;
      hide Pow2;
      QuoTwice(v, 256, Pow2(8 * (n - 1)));
    }
  }

  lemma {:induction false} BigEndianWraps(v: nat, n: nat)
    ensures BigEndian(v, n) == BigEndian(Rem(v, Pow2(8 * n)), n)
    decreases n
  {
    if n > 0 {
      var p := Pow2(8 * (n - 1));
      BigEndianWraps(v / 256, n - 1);
      Pow2Of5And8();
      Pow2Sum(8, 8 * (n - 1));
      LowByteAndRest(v, p);
    }
  }

  lemma LowByteAndRest(v: nat, p: nat)
    requires p > 0
    ensures 256 * p > 0
    ensures Rem(v, 256 * p) / 256 == Rem(v / 256, p) && Rem(v, 256 * p) % 256 == v % 256
  {
    hide Quo;
    hide Rem;
    QuoRem(v / 256, p);
    var q, r := Quo(v / 256, p), Rem(v / 256, p);
    assert v == (q * p + r) * 256 + v % 256;
    assert (q * p + r) * 256 == q * (256 * p) + 256 * r;
    QuoFrom(v, 256 * p, q, 256 * r + v % 256);
  }

  /** Four bytes of a 32-bit number, written in place. */
  method WriteUInt32BE(buf: array<byte>, value: nat, offset: nat)
    requires value < WORD && offset + 4 <= buf.Length
    modifies buf
    ensures buf[..] == old(buf[..offset]) + BigEndian(value, 4) + old(buf[offset + 4..])
  {
    FourBytes(value);
    buf[offset] := value / 0x100_0000;
    buf[offset + 1] := value / 0x1_0000 % 256;
    buf[offset + 2] := value / 0x100 % 256;
    buf[offset + 3] := value % 256;
  }

  lemma FourBytes(value: nat)
    requires value < WORD
    ensures value / 0x100_0000 < 256
    ensures BigEndian(value, 4) == [value / 0x100_0000, value / 0x1_0000 % 256, value / 0x100 % 256, value % 256]
  {
    var a := value / 256;
    var b := a / 256;
    var c := b / 256;
    assert b == value / 0x1_0000 && c == value / 0x100_0000;
    assert BigEndian(c, 1) == BigEndian(c / 256, 0) + [c % 256];
    assert BigEndian(b, 2) == BigEndian(c, 1) + [b % 256];
    assert BigEndian(a, 3) == BigEndian(b, 2) + [a % 256];
  }

  // ---- the code of a counter ---------------------------------------------------------------------------

  /**
   Dynamic truncation (section 5.3 of RFC 4226): four bytes at the offset the last byte names, without the sign
   bit.
   */
  function Truncated(d: digest): nat {
    var offset := d[19] % 16;
    var a: nat, b: nat, c: nat := d[offset], d[offset + 1], d[offset + 2];
    (a % 128) * 0x100_0000 + b * 0x1_0000 + c * 0x100 + d[offset + 3]
  }

  lemma TruncatedIsWindow(d: digest)
    ensures Truncated(d) == Value(d[d[19] % 16..d[19] % 16 + 4]) % 0x8000_0000
  {
    var w := d[d[19] % 16..d[19] % 16 + 4];
    assert w[..3][..2][..1] == [w[0]] && w[..3][..2] == [w[0], w[1]] && w[..3] == [w[0], w[1], w[2]];
    var a: nat, b: nat, c: nat := w[0], w[1], w[2];
    assert Value([w[0]]) == a;
    assert Value([w[0], w[1]]) == 256 * a + b;
    assert Value([w[0], w[1], w[2]]) == 256 * (256 * a + b) + c;
  }

  /** The code of one counter: six digits of the truncated keyed hash of its eight bytes. */
  function Code(hmac: Hmac, key: seq<byte>, counter: nat): string {
    Pad(Truncated(hmac(key, BigEndian(counter, 8))) % 1_000_000, DIGITS)
  }

  lemma CodeHasSixDigits(hmac: Hmac, key: seq<byte>, counter: nat)
    ensures |Code(hmac, key, counter)| == 6 && AllDigits(Code(hmac, key, counter))
  {
    PadReadsBack(Truncated(hmac(key, BigEndian(counter, 8))) % 1_000_000, DIGITS);
    assert Pow10(3) == 1000 && Pow10(6) == 1000 * Pow10(3);
  }

  lemma CounterHalves(counter: nat)
    requires counter < WORD * WORD
    ensures Quo(counter, WORD) < WORD && Rem(counter, WORD) < WORD
    ensures BigEndian(counter, 8) == BigEndian(Quo(counter, WORD), 4) + BigEndian(Rem(counter, WORD), 4)
  {
    WordIsPow2();
    hide *;
    QuoRem(counter, WORD);
    QuoBelow(counter, WORD, WORD);
    BigEndianSplit(counter, 4, 4);
    BigEndianWraps(counter, 4);
  }

  /** The high and low 32 bits, written one after the other, are the counter's eight bytes. */
  method CodeForCounter(hmac: Hmac, secret: string, counter: nat) returns (code: Option<string>)
    requires counter < WORD * WORD
    ensures code == match Decoding(secret) case None => None case Some(key) => Some(Code(hmac, key, counter))
  {
    hide *;
    CounterHalves(counter);
    var buf := new byte[8](_ => 0);
    WriteUInt32BE(buf, Quo(counter, WORD), 0);
    WriteUInt32BE(buf, Rem(counter, WORD), 4);
    assert buf[..] == BigEndian(counter, 8);
    var key := Base32Decode(secret);
    if key.None? { return None; }
    var d := hmac(key.value, buf[..]);
    CodeIs(hmac, key.value, counter);
    code := Some(Pad(Truncated(d) % 1_000_000, DIGITS));
  }

  lemma CodeIs(hmac: Hmac, key: seq<byte>, counter: nat)
    ensures Code(hmac, key, counter) == Pad(Truncated(hmac(key, BigEndian(counter, 8))) % 1_000_000, DIGITS)
  {
  }

  // ---- checking a code ------------------------------------------------------------------------------------

  function WithoutBlanks(s: string): string {
    if s == "" then "" else (if Blank(s[0]) then "" else [s[0]]) + WithoutBlanks(s[1..])
  }

  predicate SixDigits(s: string) { |s| == 6 && AllDigits(s) }

  /** The counter may still be used: it is later than the last one consumed. */
  predicate After(counter: nat, notBefore: Option<nat>) { notBefore.None? || counter > notBefore.value }

  predicate Matches(hmac: Hmac, key: seq<byte>, code: string, counter: nat, notBefore: Option<nat>) {
    After(counter, notBefore) && Code(hmac, key, counter) == WithoutBlanks(code)
  }

  /** The earliest matching counter of the steps before, at and after `now`. */
  function Verified(hmac: Hmac, key: seq<byte>, code: string, now: nat, notBefore: Option<nat>): Option<nat>
    requires now >= 1
  {
    if !SixDigits(WithoutBlanks(code)) then None
    else if Matches(hmac, key, code, now - 1, notBefore) then Some(now - 1)
    else if Matches(hmac, key, code, now, notBefore) then Some(now)
    else if Matches(hmac, key, code, now + 1, notBefore) then Some(now + 1)
    else None
  }

  method VerifyCode(hmac: Hmac, secret: string, code: string, now: nat, notBefore: Option<nat>)
    returns (counter: Option<nat>)
    requires 1 <= now < WORD * WORD - 1 && Decoding(secret).Some?
    ensures counter == Verified(hmac, Decoding(secret).value, code, now, notBefore)
  {
    hide Decoding;
    hide Code;
    hide WithoutBlanks;
    var trimmed := WithoutBlanks(code);
    if !SixDigits(trimmed) { return None; }
    for offset := -SKEW_STEPS to SKEW_STEPS + 1
      invariant forall c: nat :: now - 1 <= c < now + offset ==>
                  !Matches(hmac, Decoding(secret).value, code, c, notBefore)
    {
      var candidate := now + offset;
      if After(candidate, notBefore) {
        var expected := CodeForCounter(hmac, secret, candidate);
        if expected == Some(trimmed) {
          return Some(candidate);
        }
      }
    }
    return None;
  }

  /** An accepted counter is one step around now, was not used up, and belongs to the code; nothing else is accepted. */
  lemma VerifiedIsAnEarliestMatch(hmac: Hmac, key: seq<byte>, code: string, now: nat, notBefore: Option<nat>)
    requires now >= 1
    ensures Verified(hmac, key, code, now, notBefore).Some? ==>
      && now - 1 <= Verified(hmac, key, code, now, notBefore).value <= now + 1
      && Matches(hmac, key, code, Verified(hmac, key, code, now, notBefore).value, notBefore)
    ensures forall c: nat :: now - 1 <= c <= now + 1 && Matches(hmac, key, code, c, notBefore) ==>
      Verified(hmac, key, code, now, notBefore).Some? && Verified(hmac, key, code, now, notBefore).value <= c
  {
    hide Code;
    if c: nat :| now - 1 <= c <= now + 1 && Matches(hmac, key, code, c, notBefore) {
      CodeHasSixDigitsFor(hmac, key, c);
    }
  }

  lemma CodeHasSixDigitsFor(hmac: Hmac, key: seq<byte>, counter: nat)
    ensures SixDigits(Code(hmac, key, counter))
  {
    CodeHasSixDigits(hmac, key, counter);
  }

  lemma {:induction false} BlanksGo(a: string, blanks: string, b: string)
    requires forall c :: c in blanks ==> c in " \t\n\r\U{0b}\U{0c}"
    ensures WithoutBlanks(a + blanks + b) == WithoutBlanks(a + b)
    decreases |a| + |blanks|
  {
    if a != "" {
      BlanksGo(a[1..], blanks, b);
      assert (a + blanks + b)[1..] == a[1..] + blanks + b && (a + b)[1..] == a[1..] + b;
    } else if blanks != "" {
      BlanksGo(a, blanks[1..], b);
      assert (a + blanks + b)[1..] == a + blanks[1..] + b;
      assert blanks[0] in blanks;
    } else {
      assert a + blanks + b == a + b;
    }
  }

  /** Blanks typed anywhere in a code change nothing. */
  lemma BlanksChangeNothing(
      hmac: Hmac, key: seq<byte>, a: string, blanks: string, b: string, now: nat, notBefore: Option<nat>)
    requires now >= 1 && forall c :: c in blanks ==> c in " \t\n\r\U{0b}\U{0c}"
    ensures Verified(hmac, key, a + blanks + b, now, notBefore) == Verified(hmac, key, a + b, now, notBefore)
  {
    hide Code;
    BlanksGo(a, blanks, b);
    hide WithoutBlanks;
  }
}
