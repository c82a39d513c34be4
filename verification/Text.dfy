/** Decimal numerals and ASCII text helpers. */
module Text {

  predicate IsDigit(c: char) { '0' <= c <= '9' }

  predicate AllDigits(s: string) { forall i :: 0 <= i < |s| ==> IsDigit(s[i]) }

  function DigitVal(c: char): (v: nat)
    requires IsDigit(c)
    ensures v < 10
  {
    c as int - '0' as int
  }

  function DigitChar(d: nat): (c: char)
    requires d < 10
    ensures IsDigit(c) && DigitVal(c) == d
  {
    (d + '0' as int) as char
  }

  /** The number a string of digits denotes; leading zeros are allowed. */
  function ParseNat(s: string): nat
    requires AllDigits(s)
  {
    if s == "" then 0 else 10 * ParseNat(s[..|s| - 1]) + DigitVal(s[|s| - 1])
  }

  function NatToString(n: nat): (s: string)
    ensures |s| > 0 && AllDigits(s)
  {
    if n < 10 then [DigitChar(n)] else NatToString(n / 10) + [DigitChar(n % 10)]
  }

  /** Reading a numeral back gives the number. */
  lemma {:induction false} NumeralRoundTrip(n: nat)
    ensures ParseNat(NatToString(n)) == n
  {
    if n >= 10 {
      NumeralRoundTrip(n / 10);
      assert NatToString(n)[..|NatToString(n)| - 1] == NatToString(n / 10);
    }
  }

  function Pow10(k: nat): nat { if k == 0 then 1 else 10 * Pow10(k - 1) }

  lemma {:induction false} NumeralBelow(s: string)
    requires AllDigits(s)
    ensures ParseNat(s) < Pow10(|s|)
  {
    if s != "" { NumeralBelow(s[..|s| - 1]); }
  }

  lemma {:induction false} ZeroInFront(s: string)
    requires AllDigits(s)
    ensures AllDigits("0" + s) && ParseNat("0" + s) == ParseNat(s)
  {
    if s != "" {
      ZeroInFront(s[..|s| - 1]);
      assert ("0" + s)[..|s|] == "0" + s[..|s| - 1];
    } else {
      assert ("0" + s)[..0] == "";
    }
  }

  /** A number written with at least `width` digits, filled up with zeros in front. */
  function Pad(n: nat, width: nat): (s: string)
    ensures |s| > 0 && AllDigits(s)
  {
    FillWithZeros(NatToString(n), width)
  }

  function FillWithZeros(s: string, width: nat): (t: string)
    requires s != "" && AllDigits(s)
    ensures |t| > 0 && AllDigits(t)
    decreases if |s| < width then width - |s| else 0
  {
    if |s| >= width then s else FillWithZeros("0" + s, width)
  }

  lemma {:induction false} FillKeepsNumber(s: string, width: nat)
    requires s != "" && AllDigits(s)
    ensures ParseNat(FillWithZeros(s, width)) == ParseNat(s)
    ensures |FillWithZeros(s, width)| == if |s| >= width then |s| else width
    decreases if |s| < width then width - |s| else 0
  {
    if |s| < width {
      ZeroInFront(s);
      FillKeepsNumber("0" + s, width);
    }
  }

  lemma {:induction false} NumeralWidth(n: nat, k: nat)
    requires k > 0
    ensures |NatToString(n)| <= k <==> n < Pow10(k)
  {
    if n >= 10 && k > 1 {
      NumeralWidth(n / 10, k - 1);
    } else if n >= 10 {
      assert Pow10(1) == 10;
    } else {
      TenPower(k);
    }
  }

  lemma {:induction false} TenPower(k: nat)
    requires k > 0
    ensures Pow10(k) >= 10
  {
    if k > 1 { TenPower(k - 1); }
  }

  /** A padded number reads back, and has exactly the width when it fits. */
  lemma PadReadsBack(n: nat, width: nat)
    requires width > 0
    ensures ParseNat(Pad(n, width)) == n
    ensures |Pad(n, width)| == width <==> n < Pow10(width)
    ensures |Pad(n, width)| >= width
  {
    NumeralRoundTrip(n);
    FillKeepsNumber(NatToString(n), width);
    NumeralWidth(n, width);
  }

  // ---- spaces ------------------------------------------------------------------------------------

  predicate Blank(c: char) { c in " \t\n\r\U{0b}\U{0c}" }

  function TrimStart(s: string): string { if s != "" && Blank(s[0]) then TrimStart(s[1..]) else s }

  function TrimEnd(s: string): string { if s != "" && Blank(s[|s| - 1]) then TrimEnd(s[..|s| - 1]) else s }

  function Trim(s: string): string { TrimEnd(TrimStart(s)) }

  predicate Trimmed(s: string) { s != "" && !Blank(s[0]) && !Blank(s[|s| - 1]) }

  lemma TrimKeeps(s: string)
    requires Trimmed(s)
    ensures Trim(s) == s
  {
  }

  lemma {:induction false} TrimStartOnce(s: string)
    ensures TrimStart(s) == "" || !Blank(TrimStart(s)[0])
    ensures |TrimStart(s)| <= |s| && TrimStart(s) == s[|s| - |TrimStart(s)|..]
  {
    if s != "" && Blank(s[0]) { TrimStartOnce(s[1..]); }
  }

  lemma {:induction false} TrimEndOnce(s: string)
    ensures TrimEnd(s) == "" || !Blank(TrimEnd(s)[|TrimEnd(s)| - 1])
    ensures |TrimEnd(s)| <= |s| && TrimEnd(s) == s[..|TrimEnd(s)|]
  {
    if s != "" && Blank(s[|s| - 1]) { TrimEndOnce(s[..|s| - 1]); }
  }

  lemma TrimTwice(s: string)
    ensures Trim(Trim(s)) == Trim(s)
  {
    TrimStartOnce(s);
    TrimEndOnce(TrimStart(s));
  }
}
