/** Dates printed on identity documents, normalized to ISO `YYYY-MM-DD`. */
module IdDates {
  import opened Options
  import opened Text

  /** How a two-digit year gets its century. */
  datatype Century = Past | Future

  type numeral = s: string | s != "" && AllDigits(s) witness "0"

  // ---- the calendar ------------------------------------------------------------------------------

  predicate Leap(y: nat) { y % 4 == 0 && (y % 100 != 0 || y % 400 == 0) }

  function DaysIn(y: nat, m: nat): (d: nat)
    requires 1 <= m <= 12
    ensures 28 <= d <= 31
  {
    if m == 2 then (if Leap(y) then 29 else 28) else if m in {4, 6, 9, 11} then 30 else 31
  }

  /** A day of the Gregorian calendar that a timestamp can hold. */
  predicate RealDate(y: nat, m: nat, d: nat) {
    1 <= m <= 12 && 1 <= d <= DaysIn(y, m) && NotAfter(y, m, d, 275760, 9, 13)
  }

  predicate NotAfter(y: nat, m: nat, d: nat, y': nat, m': nat, d': nat) {
    y < y' || (y == y' && (m < m' || (m == m' && d <= d')))
  }

  /** The day a UTC timestamp falls on: days past the end of a month roll into the next one. */
  function Rolled(y: nat, m: nat, d: nat): Option<(nat, nat, nat)>
    requires 1 <= m <= 12 && 1 <= d <= 31
  {
    var day := if d <= DaysIn(y, m) then (y, m, d) else (y, m + 1, d - DaysIn(y, m));
    if NotAfter(day.0, day.1, day.2, 275760, 9, 13) then Some(day) else None
  }

  /** Three texts with a character between each two. */
  function Written(a: string, p: char, b: string, q: char, c: string): string { a + [p] + (b + [q] + c) }

  function Iso(y: nat, m: nat, d: nat): string { Written(Pad(y, 4), '-', Pad(m, 2), '-', Pad(d, 2)) }

  /** A real calendar date from the year 1000 on, as ISO. */
  function ToIso(y: nat, m: nat, d: nat): Option<string> {
    if y < 1000 || m < 1 || m > 12 || d < 1 || d > 31 then None
    else if Rolled(y, m, d) != Some((y, m, d)) then None
    else Some(Iso(y, m, d))
  }

  lemma ToIsoIsRealDate(y: nat, m: nat, d: nat)
    ensures ToIso(y, m, d).Some? <==> y >= 1000 && RealDate(y, m, d)
    ensures ToIso(y, m, d).Some? ==> ToIso(y, m, d) == Some(Iso(y, m, d))
  {
  }

  // ---- the tokens ----------------------------------------------------------------------------------

  function Upper(c: char): char { if 'a' <= c <= 'z' then (c as int - 32) as char else c }

  predicate IsLetter(c: char) { 'A' <= c <= 'Z' }

  function UpperCase(s: string): (t: string)
    ensures |t| == |s|
  {
    seq(|s|, i requires 0 <= i < |s| => Upper(s[i]))
  }

  /** How far the run of digits, or of letters, at the front reaches. */
  function Run(s: string, digits: bool): (n: nat)
    ensures n <= |s|
    ensures forall i :: 0 <= i < n ==> if digits then IsDigit(s[i]) else IsLetter(s[i])
    ensures n < |s| ==> !(if digits then IsDigit(s[n]) else IsLetter(s[n]))
  {
    if s != "" && (if digits then IsDigit(s[0]) else IsLetter(s[0])) then Run(s[1..], digits) + 1 else 0
  }

  /** The maximal runs of letters and of digits, in order. */
  function Tokens(s: string): seq<string>
    decreases |s|
  {
    if s == "" then []
    else if IsDigit(s[0]) then
      assert Run(s, true) > 0;
      [s[..Run(s, true)]] + Tokens(s[Run(s, true)..])
    else if IsLetter(s[0]) then
      assert Run(s, false) > 0;
      [s[..Run(s, false)]] + Tokens(s[Run(s, false)..])
    else Tokens(s[1..])
  }

  function Numbers(tokens: seq<string>): seq<numeral> {
    if tokens == [] then []
    else (if tokens[0] != "" && AllDigits(tokens[0]) then [tokens[0]] else []) + Numbers(tokens[1..])
  }

  /** The month a letter token begins with, in English or French; four-letter forms are tried first. */
  function MonthFromName(token: string): (m: Option<nat>)
    ensures m.Some? ==> 1 <= m.value <= 12
  {
    if |token| < 3 then None
    else if "JUIN" <= token then Some(6)
    else if "JUIL" <= token then Some(7)
    else if "JAN" <= token then Some(1)
    else if "FEB" <= token || "FEV" <= token then Some(2)
    else if "MAR" <= token then Some(3)
    else if "APR" <= token || "AVR" <= token then Some(4)
    else if "MAY" <= token || "MAI" <= token then Some(5)
    else if "JUN" <= token then Some(6)
    else if "JUL" <= token then Some(7)
    else if "AUG" <= token || "AOU" <= token then Some(8)
    else if "SEP" <= token then Some(9)
    else if "OCT" <= token then Some(10)
    else if "NOV" <= token then Some(11)
    else if "DEC" <= token then Some(12)
    else None
  }

  function FirstMonth(tokens: seq<string>): Option<nat> {
    if tokens == [] then None
    else if MonthFromName(tokens[0]).Some? then MonthFromName(tokens[0])
    else FirstMonth(tokens[1..])
  }

  // ---- reading a date ---------------------------------------------------------------------------------

  /** The year two digits stand for, seen from `thisYear`; other numerals stand for themselves. */
  function ExpandYear(digits: numeral, century: Century, thisYear: int): nat {
    var n := ParseNat(digits);
    if |digits| != 2 then n
    else
      NumeralBelow(digits);
      assert Pow10(2) == 100;
      TwoDigitYear(n, century, thisYear)
  }

  function TwoDigitYear(n: nat, century: Century, thisYear: int): (y: nat)
    requires n < 100
  {
    var candidate := 2000 + n;
    if candidate > (if century.Past? then thisYear else thisYear + 50) then candidate - 100 else candidate
  }

  function OrElse(first: Option<string>, second: Option<string>): Option<string> {
    if first.Some? then first else second
  }

  /** A month name with two numbers: the four-digit one is the year, otherwise the day comes first. */
  function NamedMonth(numbers: seq<numeral>, month: nat, century: Century, thisYear: int): Option<string> {
    if |numbers| < 2 then None
    else if |numbers[0]| == 4 then ToIso(ExpandYear(numbers[0], century, thisYear), month, ParseNat(numbers[1]))
    else ToIso(ExpandYear(numbers[1], century, thisYear), month, ParseNat(numbers[0]))
  }

  function Part(digits: numeral, from: nat, to: nat): (part: numeral)
    requires from < to <= |digits|
    ensures |part| == to - from
  {
    assert AllDigits(digits);
    digits[from..to]
  }

  /** Eight digits, year first only in the 1900s and 2000s; or the six of a machine-readable zone. */
  function Compact(digits: numeral, century: Century, thisYear: int): Option<string> {
    if |digits| == 8 then
      OrElse(
        if digits[..2] == "19" || digits[..2] == "20" then
          ToIso(ParseNat(Part(digits, 0, 4)), ParseNat(Part(digits, 4, 6)), ParseNat(Part(digits, 6, 8)))
        else None,
        ToIso(ParseNat(Part(digits, 4, 8)), ParseNat(Part(digits, 2, 4)), ParseNat(Part(digits, 0, 2))))
    else if |digits| == 6 then
      ToIso(ExpandYear(Part(digits, 0, 2), century, thisYear), ParseNat(Part(digits, 2, 4)),
          ParseNat(Part(digits, 4, 6)))
    else None
  }

  /** Three numbers: year first when it has four digits, else day first, month first if that is impossible. */
  function Separated(a: numeral, b: numeral, c: numeral, century: Century, thisYear: int): Option<string> {
    if |a| == 4 then ToIso(ParseNat(a), ParseNat(b), ParseNat(c))
    else if |c| != 2 && |c| != 4 then None
    else
      var year := ExpandYear(c, century, thisYear);
      OrElse(ToIso(year, ParseNat(b), ParseNat(a)), ToIso(year, ParseNat(a), ParseNat(b)))
  }

  function ReadNumbers(numbers: seq<numeral>, month: Option<nat>, century: Century, thisYear: int): Option<string> {
    if month.Some? then NamedMonth(numbers, month.value, century, thisYear)
    else if |numbers| == 1 then Compact(numbers[0], century, thisYear)
    else if |numbers| < 3 then None
    else Separated(numbers[0], numbers[1], numbers[2], century, thisYear)
  }

  function ReadText(text: string, century: Century, thisYear: int): Option<string> {
    var tokens := Tokens(UpperCase(text));
    ReadNumbers(Numbers(tokens), FirstMonth(tokens), century, thisYear)
  }

  function ParseIdDate(value: Option<string>, century: Century, thisYear: int): Option<string> {
    if value.None? then None else ReadText(value.value, century, thisYear)
  }

  /** ISO when the printed date parses, otherwise the printed text. */
  function NormalizeIdDate(value: Option<string>, century: Century, thisYear: int): Option<string> {
    if value.None? || Trim(value.value) == "" then None
    else
      match ParseIdDate(Some(Trim(value.value)), century, thisYear)
      case Some(iso) => Some(iso)
      case None => Some(Trim(value.value))
  }

  predicate DatesMatch(actual: Option<string>, expected: string, century: Century, thisYear: int) {
    var a := ParseIdDate(actual, century, thisYear);
    a.Some? && a == ParseIdDate(Some(expected), century, thisYear)
  }

  /** Character by character, as strings compare. */
  predicate LexLess(a: string, b: string) {
    if b == "" then false
    else if a == "" then true
    else a[0] < b[0] || (a[0] == b[0] && LexLess(a[1..], b[1..]))
  }

  /** Whether the expiry date lies before today; unreadable dates give no answer. */
  function IsExpired(expiry: Option<string>, today: (nat, nat, nat)): Option<bool> {
    match ParseIdDate(expiry, Future, today.0)
    case None => None
    case Some(iso) => Some(LexLess(iso, Iso(today.0, today.1, today.2)))
  }

  // ---- reading what was written ---------------------------------------------------------------------------

  predicate Separator(c: char) { !IsDigit(Upper(c)) && !IsLetter(Upper(c)) }

  lemma {:induction false} RunOfDigits(digits: string, rest: string)
    requires AllDigits(digits) && (rest == "" || !IsDigit(rest[0]))
    ensures Run(digits + rest, true) == |digits|
  {
    if digits == "" {
      assert digits + rest == rest;
    } else {
      RunOfDigits(digits[1..], rest);
      assert (digits + rest)[1..] == digits[1..] + rest;
    }
  }

  lemma NumberToken(digits: string, rest: string)
    requires digits != "" && AllDigits(digits) && (rest == "" || !IsDigit(rest[0]))
    ensures Tokens(digits + rest) == [digits] + Tokens(rest)
  {
    RunOfDigits(digits, rest);
    assert (digits + rest)[0] == digits[0];
    assert (digits + rest)[..|digits|] == digits && (digits + rest)[|digits|..] == rest;
  }

  lemma SkipSeparator(c: char, rest: string)
    requires Separator(c)
    ensures Tokens([c] + rest) == Tokens(rest)
  {
    assert ([c] + rest)[1..] == rest;
  }

  lemma NumberThen(a: numeral, p: char, rest: string)
    requires Separator(p)
    ensures Tokens(a + [p] + rest) == [a] + Tokens(rest)
  {
    NumberToken(a, [p] + rest);
    SkipSeparator(p, rest);
    assert a + [p] + rest == a + ([p] + rest);
  }

  lemma LastNumber(c: numeral)
    ensures Tokens(c) == [c]
  {
    assert c + "" == c;
    NumberToken(c, "");
    assert Tokens("") == [];
  }

  /** Three numbers between separators. */
  lemma ThreeNumbers(a: numeral, p: char, b: numeral, q: char, c: numeral)
    requires Separator(p) && Separator(q)
    ensures Tokens(Written(a, p, b, q, c)) == [a, b, c]
  {
    hide Tokens;
    NumberThen(a, p, b + [q] + c);
    NumberThen(b, q, c);
    LastNumber(c);
  }

  lemma UpperFixes(s: string)
    requires forall i :: 0 <= i < |s| ==> Upper(s[i]) == s[i]
    ensures UpperCase(s) == s
  {
  }

  lemma UpperWritten(a: numeral, p: char, b: numeral, q: char, c: numeral)
    requires Separator(p) && Separator(q)
    ensures UpperCase(Written(a, p, b, q, c)) == Written(a, p, b, q, c)
  {
    var s := Written(a, p, b, q, c);
    forall i | 0 <= i < |s| ensures Upper(s[i]) == s[i] {
      if i < |a| {
        assert s[i] == a[i];
      } else if |a| < i < |a| + 1 + |b| {
        assert s[i] == b[i - |a| - 1];
      } else if |a| + 1 + |b| < i {
        assert s[i] == c[i - |a| - |b| - 2];
      }
    }
    UpperFixes(s);
  }

  lemma NumbersAreNoMonths(token: numeral)
    ensures MonthFromName(token).None?
  {
    assert IsDigit(token[0]);
  }

  lemma ThreeAreNumbers(a: numeral, b: numeral, c: numeral)
    ensures Numbers([a, b, c]) == [a, b, c] && FirstMonth([a, b, c]).None?
  {
    NumbersAreNoMonths(a);
    NumbersAreNoMonths(b);
    NumbersAreNoMonths(c);
    assert [a, b, c][1..] == [b, c] && [b, c][1..] == [c] && [c][1..] == [];
    assert Numbers([c]) == [c];
    assert Numbers([b, c]) == [b, c];
    assert FirstMonth([c]).None?;
    assert FirstMonth([b, c]).None?;
  }

  lemma ReadThree(a: numeral, p: char, b: numeral, q: char, c: numeral, century: Century, thisYear: int)
    requires Separator(p) && Separator(q)
    ensures ReadText(Written(a, p, b, q, c), century, thisYear) == Separated(a, b, c, century, thisYear)
  {
    hide *;
    UpperWritten(a, p, b, q, c);
    ThreeNumbers(a, p, b, q, c);
    ThreeAreNumbers(a, b, c);
    ReadTokens(Written(a, p, b, q, c), [a, b, c], century, thisYear);
    AsSeparated([a, b, c], century, thisYear);
  }

  lemma ReadTokens(text: string, tokens: seq<string>, century: Century, thisYear: int)
    requires Tokens(UpperCase(text)) == tokens
    ensures ReadText(text, century, thisYear) == ReadNumbers(Numbers(tokens), FirstMonth(tokens), century, thisYear)
  {
  }

  lemma AsSeparated(numbers: seq<numeral>, century: Century, thisYear: int)
    requires |numbers| == 3
    ensures ReadNumbers(numbers, None, century, thisYear)
         == Separated(numbers[0], numbers[1], numbers[2], century, thisYear)
  {
  }

  lemma PaddedDate(y: nat, m: nat, d: nat)
    requires 1000 <= y <= 9999 && RealDate(y, m, d)
    ensures |Pad(y, 4)| == 4 && ParseNat(Pad(y, 4)) == y
    ensures |Pad(m, 2)| == 2 && ParseNat(Pad(m, 2)) == m
    ensures |Pad(d, 2)| == 2 && ParseNat(Pad(d, 2)) == d
  {
    hide Pad;
    PadReadsBack(y, 4);
    PadReadsBack(m, 2);
    PadReadsBack(d, 2);
    assert Pow10(2) == 100;
    assert Pow10(4) == 100 * Pow10(2);
  }

  /** A real date written year first reads back, whatever the clock and the separators. */
  lemma YearFirstRoundTrip(y: nat, m: nat, d: nat, p: char, q: char, century: Century, thisYear: int)
    requires 1000 <= y <= 9999 && RealDate(y, m, d) && Separator(p) && Separator(q)
    ensures ReadText(Written(Pad(y, 4), p, Pad(m, 2), q, Pad(d, 2)), century, thisYear) == Some(Iso(y, m, d))
  {
    PaddedDate(y, m, d);
    hide *;
    ReadThree(Pad(y, 4), p, Pad(m, 2), q, Pad(d, 2), century, thisYear);
    SeparatedYearFirst(Pad(y, 4), Pad(m, 2), Pad(d, 2), century, thisYear);
    ToIsoIsRealDate(y, m, d);
  }

  lemma SeparatedYearFirst(a: numeral, b: numeral, c: numeral, century: Century, thisYear: int)
    requires |a| == 4
    ensures Separated(a, b, c, century, thisYear) == ToIso(ParseNat(a), ParseNat(b), ParseNat(c))
  {
  }

  lemma SeparatedDayFirst(a: numeral, b: numeral, c: numeral, century: Century, thisYear: int)
    requires |a| != 4 && |c| == 4 && ToIso(ParseNat(c), ParseNat(b), ParseNat(a)).Some?
    ensures Separated(a, b, c, century, thisYear) == ToIso(ParseNat(c), ParseNat(b), ParseNat(a))
  {
  }

  /** A real date written day first with its four-digit year reads back. */
  lemma DayFirstRoundTrip(y: nat, m: nat, d: nat, p: char, q: char, century: Century, thisYear: int)
    requires 1000 <= y <= 9999 && RealDate(y, m, d) && Separator(p) && Separator(q)
    ensures ReadText(Written(Pad(d, 2), p, Pad(m, 2), q, Pad(y, 4)), century, thisYear) == Some(Iso(y, m, d))
  {
    PaddedDate(y, m, d);
    hide *;
    ReadThree(Pad(d, 2), p, Pad(m, 2), q, Pad(y, 4), century, thisYear);
    ToIsoIsRealDate(y, m, d);
    SeparatedDayFirst(Pad(d, 2), Pad(m, 2), Pad(y, 4), century, thisYear);
  }

  // ---- compact dates --------------------------------------------------------------------------------

  lemma ReadOne(digits: numeral, century: Century, thisYear: int)
    ensures ReadText(digits, century, thisYear) == Compact(digits, century, thisYear)
  {
    hide *;
    UpperNumeral(digits);
    LastNumber(digits);
    ReadTokens(digits, [digits], century, thisYear);
    OneNumber(digits, century, thisYear);
  }

  lemma UpperNumeral(digits: numeral)
    ensures UpperCase(digits) == digits
  {
    assert AllDigits(digits);
    UpperFixes(digits);
  }

  lemma OneNumber(digits: numeral, century: Century, thisYear: int)
    ensures ReadNumbers(Numbers([digits]), FirstMonth([digits]), century, thisYear)
         == Compact(digits, century, thisYear)
  {
    NumbersAreNoMonths(digits);
    assert Numbers([digits]) == [digits];
  }

  function Glued(a: numeral, b: numeral, c: numeral): (s: numeral)
    ensures |s| == |a| + |b| + |c|
  {
    a + b + c
  }

  lemma PartsOfGlued(a: numeral, b: numeral, c: numeral)
    requires |a| == 2 && |b| == 2 && |c| == 4
    ensures Part(Glued(a, b, c), 0, 2) == a && Part(Glued(a, b, c), 2, 4) == b && Part(Glued(a, b, c), 4, 8) == c
    ensures Part(Glued(a, b, c), 0, 4) == a + b && Part(Glued(a, b, c), 4, 6) == c[..2]
    ensures Part(Glued(a, b, c), 6, 8) == c[2..]
    ensures Glued(a, b, c)[..2] == a
  {
  }

  lemma GluedNumber(a: numeral, b: numeral)
    requires |a| == 2 && |b| == 2
    ensures AllDigits(a + b) && ParseNat(a + b) == 100 * ParseNat(a) + ParseNat(b)
  {
    assert (a + b)[..3][..2] == a;
    assert (a + b)[..3] == a + b[..1];
    TwoDigits(b);
  }

  lemma TwoDigits(b: numeral)
    requires |b| == 2
    ensures ParseNat(b) == 10 * DigitVal(b[0]) + DigitVal(b[1])
  {
    assert b[..1] == [b[0]];
    assert ParseNat(b[..1]) == DigitVal(b[0]);
  }

  lemma FourDigits(c: numeral)
    requires |c| == 4
    ensures AllDigits(c[..2]) && AllDigits(c[2..])
    ensures ParseNat(c[..2]) == ParseNat(c) / 100 && ParseNat(c[2..]) == ParseNat(c) % 100
  {
    assert c == c[..2] + c[2..];
    GluedNumber(c[..2], c[2..]);
    NumeralBelow(c[2..]);
    assert Pow10(2) == 100;
  }

  predicate NineteenOrTwenty(d: nat) { d == 19 || d == 20 }

  lemma StartsLikeAYear(a: numeral)
    requires |a| == 2
    ensures (a == "19" || a == "20") <==> NineteenOrTwenty(ParseNat(a))
  {
    TwoDigits(a);
    assert a == [a[0], a[1]];
  }

  lemma CompactIs(a: numeral, b: numeral, c: numeral, century: Century, thisYear: int)
    requires |a| == 2 && |b| == 2 && |c| == 4
    ensures Compact(Glued(a, b, c), century, thisYear)
         == OrElse(if NineteenOrTwenty(ParseNat(a))
                   then ToIso(100 * ParseNat(a) + ParseNat(b), ParseNat(c) / 100, ParseNat(c) % 100) else None,
                   ToIso(ParseNat(c), ParseNat(b), ParseNat(a)))
  {
    hide ToIso;
    hide Glued;
    hide Part;
    hide ParseNat;
    PartsOfGlued(a, b, c);
    GluedNumber(a, b);
    FourDigits(c);
    StartsLikeAYear(a);
  }

  /** The eight digits of a date written day, month, year are also those of a date written year first. */
  predicate ReadsYearFirst(y: nat, m: nat, d: nat) {
    NineteenOrTwenty(d) && RealDate(100 * d + m, y / 100, y % 100)
  }

  /** DDMMYYYY reads back exactly when it is not also a date of the years 1901 to 2012 written year first. */
  lemma CompactDayFirst(y: nat, m: nat, d: nat, century: Century, thisYear: int)
    requires 1000 <= y <= 9999 && RealDate(y, m, d)
    ensures ReadText(Glued(Pad(d, 2), Pad(m, 2), Pad(y, 4)), century, thisYear) == Some(Iso(y, m, d))
       <==> !ReadsYearFirst(y, m, d)
  {
    PaddedDate(y, m, d);
    ReadOne(Glued(Pad(d, 2), Pad(m, 2), Pad(y, 4)), century, thisYear);
    CompactIs(Pad(d, 2), Pad(m, 2), Pad(y, 4), century, thisYear);
    CompactOutcome(y, m, d, 100 * d + m, y / 100, y % 100);
    hide *;
    YearFirstMeans(y, m, d);
  }

  lemma YearFirstMeans(y: nat, m: nat, d: nat)
    ensures ReadsYearFirst(y, m, d) <==> NineteenOrTwenty(d) && RealDate(100 * d + m, y / 100, y % 100)
  {
  }

  lemma CompactOutcome(y: nat, m: nat, d: nat, y': nat, m': nat, d': nat)
    requires 1000 <= y <= 9999 && RealDate(y, m, d)
    requires y' == 100 * d + m && m' == y / 100
    ensures OrElse(if NineteenOrTwenty(d) then ToIso(y', m', d') else None, ToIso(y, m, d)) == Some(Iso(y, m, d))
       <==> !(NineteenOrTwenty(d) && RealDate(y', m', d'))
  {
    YearsDiffer(y, m, d, y', m', d');
    hide *;
    ToIsoIsRealDate(y, m, d);
    ToIsoIsRealDate(y', m', d');
    if NineteenOrTwenty(d) && RealDate(y', m', d') { IsoInjective(y, m, d, y', m', d'); }
    OrElseIs(if NineteenOrTwenty(d) then ToIso(y', m', d') else None, ToIso(y, m, d));
  }

  lemma YearsDiffer(y: nat, m: nat, d: nat, y': nat, m': nat, d': nat)
    requires 1000 <= y <= 9999 && RealDate(y, m, d)
    requires y' == 100 * d + m && m' == y / 100
    ensures NineteenOrTwenty(d) ==> 1000 <= y' <= 9999 && (RealDate(y', m', d') ==> y' != y)
  {
  }

  lemma OrElseIs(first: Option<string>, second: Option<string>)
    ensures OrElse(first, second) == if first.Some? then first else second
  {
  }

  lemma IsoInjective(y: nat, m: nat, d: nat, y': nat, m': nat, d': nat)
    requires y <= 9999 && y' <= 9999
    ensures Iso(y, m, d) == Iso(y', m', d') ==> y == y'
  {
    PadReadsBack(y, 4);
    PadReadsBack(y', 4);
    assert Pow10(2) == 100;
    assert Pow10(4) == 100 * Pow10(2);
    hide Pad;
    assert Iso(y, m, d)[..4] == Pad(y, 4) && Iso(y', m', d')[..4] == Pad(y', 4);
  }

  /** In particular from the year 1300 on, where the year's first digits are no month. */
  lemma CompactFrom1300(y: nat, m: nat, d: nat, century: Century, thisYear: int)
    requires 1300 <= y <= 9999 && RealDate(y, m, d)
    ensures ReadText(Glued(Pad(d, 2), Pad(m, 2), Pad(y, 4)), century, thisYear) == Some(Iso(y, m, d))
  {
    hide ReadText;
    CompactDayFirst(y, m, d, century, thisYear);
    assert y / 100 > 12;
  }

  // ---- month names -----------------------------------------------------------------------------------

  predicate AllLetters(s: string) { forall i :: 0 <= i < |s| ==> IsLetter(s[i]) }

  lemma {:induction false} RunOfLetters(letters: string, rest: string)
    requires AllLetters(letters) && (rest == "" || !IsLetter(rest[0]))
    ensures Run(letters + rest, false) == |letters|
  {
    if letters == "" {
      assert letters + rest == rest;
    } else {
      RunOfLetters(letters[1..], rest);
      assert (letters + rest)[1..] == letters[1..] + rest;
    }
  }

  lemma NameThen(name: string, p: char, rest: string)
    requires name != "" && AllLetters(name) && Separator(p)
    ensures Tokens(name + [p] + rest) == [name] + Tokens(rest)
  {
    RunOfLetters(name, [p] + rest);
    assert name + [p] + rest == name + ([p] + rest);
    assert (name + ([p] + rest))[0] == name[0];
    assert (name + ([p] + rest))[|name|..] == [p] + rest;
    SkipSeparator(p, rest);
  }

  lemma NamedTokens(a: numeral, p: char, name: string, q: char, c: numeral)
    requires Separator(p) && Separator(q) && name != "" && AllLetters(name)
    ensures Tokens(Written(a, p, name, q, c)) == [a, name, c]
  {
    hide Tokens;
    NumberThen(a, p, name + [q] + c);
    NameThen(name, q, c);
    LastNumber(c);
  }

  lemma NamedNumbers(a: numeral, name: string, c: numeral)
    requires name != "" && AllLetters(name) && MonthFromName(name).Some?
    ensures Numbers([a, name, c]) == [a, c] && FirstMonth([a, name, c]) == MonthFromName(name)
  {
    hide MonthFromName;
    NumbersAreNoMonths(a);
    assert IsLetter(name[0]);
    assert [a, name, c][1..] == [name, c] && [name, c][1..] == [c];
    assert Numbers([c]) == [c];
    assert Numbers([name, c]) == [c];
    assert FirstMonth([name, c]) == MonthFromName(name);
  }

  /** Upper-casing leaves the numbers and separators around a name alone. */
  lemma UpperNamed(a: numeral, p: char, name: string, q: char, c: numeral)
    requires Separator(p) && Separator(q)
    ensures UpperCase(Written(a, p, name, q, c)) == Written(a, p, UpperCase(name), q, c)
  {
    var s, t := Written(a, p, name, q, c), Written(a, p, UpperCase(name), q, c);
    assert |s| == |t|;
    forall i | 0 <= i < |s| ensures UpperCase(s)[i] == t[i] {
      if i < |a| {
        assert s[i] == a[i] == t[i];
      } else if |a| < i < |a| + 1 + |name| {
        assert s[i] == name[i - |a| - 1] && t[i] == UpperCase(name)[i - |a| - 1];
      } else if |a| + 1 + |name| < i {
        assert s[i] == c[i - |a| - |name| - 2] == t[i];
      }
    }
  }

  /** A name between two numbers is read as its month, in whatever letter case. */
  lemma ReadNamed(a: numeral, p: char, name: string, q: char, c: numeral, century: Century, thisYear: int)
    requires Separator(p) && Separator(q) && AllLetters(UpperCase(name)) && MonthFromName(UpperCase(name)).Some?
    ensures ReadText(Written(a, p, name, q, c), century, thisYear)
         == ReadNumbers([a, c], MonthFromName(UpperCase(name)), century, thisYear)
  {
    assert name != "";
    hide *;
    UpperNamed(a, p, name, q, c);
    NamedTokens(a, p, UpperCase(name), q, c);
    NamedNumbers(a, UpperCase(name), c);
    ReadTokens(Written(a, p, name, q, c), [a, UpperCase(name), c], century, thisYear);
  }

  /** A real date written with its month's name in any letter case, day first or year first, reads back. */
  lemma MonthNameRoundTrip(
    y: nat, m: nat, d: nat, name: string, p: char, q: char, century: Century, thisYear: int)
    requires 1000 <= y <= 9999 && RealDate(y, m, d) && Separator(p) && Separator(q)
    requires AllLetters(UpperCase(name)) && MonthFromName(UpperCase(name)) == Some(m)
    ensures ReadText(Written(Pad(d, 2), p, name, q, Pad(y, 4)), century, thisYear) == Some(Iso(y, m, d))
    ensures ReadText(Written(Pad(y, 4), p, name, q, Pad(d, 2)), century, thisYear) == Some(Iso(y, m, d))
  {
    PaddedDate(y, m, d);
    hide *;
    ReadNamed(Pad(d, 2), p, name, q, Pad(y, 4), century, thisYear);
    ReadNamed(Pad(y, 4), p, name, q, Pad(d, 2), century, thisYear);
    ToIsoIsRealDate(y, m, d);
    AsNamed([Pad(d, 2), Pad(y, 4)], m, century, thisYear);
    AsNamed([Pad(y, 4), Pad(d, 2)], m, century, thisYear);
  }

  lemma AsNamed(numbers: seq<numeral>, month: nat, century: Century, thisYear: int)
    requires |numbers| == 2
    ensures |numbers[0]| == 4 ==>
          ReadNumbers(numbers, Some(month), century, thisYear)
              == ToIso(ParseNat(numbers[0]), month, ParseNat(numbers[1]))
    ensures |numbers[0]| != 4 && |numbers[1]| == 4 ==>
          ReadNumbers(numbers, Some(month), century, thisYear)
              == ToIso(ParseNat(numbers[1]), month, ParseNat(numbers[0]))
  {
  }

  // ---- two-digit years ---------------------------------------------------------------------------------

  /**
   Past years land in the hundred years up to the current one exactly for clocks from 1999 to 2099, and
   then every year of those is what its own last two digits are read as.
   */
  lemma PastWindow(thisYear: int)
    ensures (forall n: nat :: n < 100 ==> thisYear - 99 <= TwoDigitYear(n, Past, thisYear) <= thisYear)
       <==> 1999 <= thisYear <= 2099
    ensures 1999 <= thisYear <= 2099 ==>
              forall y: nat :: thisYear - 99 <= y <= thisYear ==> TwoDigitYear(y % 100, Past, thisYear) == y
  {
    assert thisYear < 1999 ==> !(TwoDigitYear(99, Past, thisYear) <= thisYear);
    assert thisYear > 2099 ==> !(thisYear - 99 <= TwoDigitYear(0, Past, thisYear));
  }

  /**
   Expiry years land in the window from 49 years back to 50 ahead exactly for clocks from 1949 to 2049, and
   then every year of it is what its own last two digits are read as.
   */
  lemma FutureWindow(thisYear: int)
    ensures (forall n: nat :: n < 100 ==> thisYear - 49 <= TwoDigitYear(n, Future, thisYear) <= thisYear + 50)
       <==> 1949 <= thisYear <= 2049
    ensures 1949 <= thisYear <= 2049 ==>
              forall y: nat :: thisYear - 49 <= y <= thisYear + 50 ==> TwoDigitYear(y % 100, Future, thisYear) == y
  {
    assert thisYear < 1949 ==> !(TwoDigitYear(99, Future, thisYear) <= thisYear + 50);
    assert thisYear > 2049 ==> !(thisYear - 49 <= TwoDigitYear(0, Future, thisYear));
  }

  // ---- normalizing twice --------------------------------------------------------------------------------

  /** The first pass already reads the digits 00 as the leap year 2000. */
  predicate SeesTwoThousand(century: Century, thisYear: int) {
    if century.Past? then thisYear >= 2000 else thisYear >= 1950
  }

  ghost predicate FromCalendar(parsed: Option<string>) {
    parsed.Some? ==> exists y, m, d :: ToIso(y, m, d) == parsed
  }

  lemma OrElseFromCalendar(first: Option<string>, second: Option<string>)
    requires FromCalendar(first) && FromCalendar(second)
    ensures FromCalendar(OrElse(first, second))
  {
  }

  /** Whatever is read is the ISO form of a real date. */
  lemma ReadingIsIso(numbers: seq<numeral>, month: Option<nat>, century: Century, thisYear: int)
    ensures FromCalendar(ReadNumbers(numbers, month, century, thisYear))
  {
    hide ToIso;
    hide OrElse;
    hide ExpandYear;
    hide ParseNat;
    if month.Some? {
    } else if |numbers| == 1 {
      CompactIsIso(numbers[0], century, thisYear);
    } else if |numbers| >= 3 {
      SeparatedIsIso(numbers[0], numbers[1], numbers[2], century, thisYear);
    }
  }

  lemma CompactIsIso(digits: numeral, century: Century, thisYear: int)
    ensures FromCalendar(Compact(digits, century, thisYear))
  {
    hide ToIso;
    hide OrElse;
    hide ExpandYear;
    hide ParseNat;
    if |digits| == 8 {
      var yearFirst := if digits[..2] == "19" || digits[..2] == "20" then
          ToIso(ParseNat(Part(digits, 0, 4)), ParseNat(Part(digits, 4, 6)), ParseNat(Part(digits, 6, 8)))
        else None;
      OrElseFromCalendar(yearFirst,
          ToIso(ParseNat(Part(digits, 4, 8)), ParseNat(Part(digits, 2, 4)), ParseNat(Part(digits, 0, 2))));
    }
  }

  lemma SeparatedIsIso(a: numeral, b: numeral, c: numeral, century: Century, thisYear: int)
    ensures FromCalendar(Separated(a, b, c, century, thisYear))
  {
    hide ToIso;
    hide OrElse;
    hide ExpandYear;
    hide ParseNat;
    var year := ExpandYear(c, century, thisYear);
    OrElseFromCalendar(ToIso(year, ParseNat(b), ParseNat(a)), ToIso(year, ParseNat(a), ParseNat(b)));
  }

  /** Nothing that a first pass cannot read becomes readable later, except on the day 29 February 1900. */
  lemma YearOnlyMattersInLeapYears(digits: numeral, c1: Century, y1: int, c2: Century, y2: int, m: nat, d: nat)
    requires SeesTwoThousand(c1, y1)
    ensures ToIso(ExpandYear(digits, c1, y1), m, d).None? ==> ToIso(ExpandYear(digits, c2, y2), m, d).None?
  {
    ToIsoIsRealDate(ExpandYear(digits, c1, y1), m, d);
    ToIsoIsRealDate(ExpandYear(digits, c2, y2), m, d);
    if |digits| == 2 {
      var n := ParseNat(digits);
      NumeralBelow(digits);
      assert Pow10(2) == 100;
      if n > 0 { LeapTogether(n); }
    }
  }

  lemma LeapTogether(n: nat)
    requires 0 < n < 100
    ensures Leap(1900 + n) <==> Leap(2000 + n)
  {
  }

  lemma NamedStaysUnread(numbers: seq<numeral>, month: nat, c1: Century, y1: int, c2: Century, y2: int)
    requires SeesTwoThousand(c1, y1)
    ensures NamedMonth(numbers, month, c1, y1).None? ==> NamedMonth(numbers, month, c2, y2).None?
  {
    hide ToIso;
    hide ExpandYear;
    hide ParseNat;
    if |numbers| >= 2 {
      YearOnlyMattersInLeapYears(numbers[0], c1, y1, c2, y2, month, ParseNat(numbers[1]));
      YearOnlyMattersInLeapYears(numbers[1], c1, y1, c2, y2, month, ParseNat(numbers[0]));
    }
  }

  lemma CompactStaysUnread(digits: numeral, c1: Century, y1: int, c2: Century, y2: int)
    requires SeesTwoThousand(c1, y1)
    ensures Compact(digits, c1, y1).None? ==> Compact(digits, c2, y2).None?
  {
    hide ToIso;
    hide ExpandYear;
    hide ParseNat;
    if |digits| == 6 {
      YearOnlyMattersInLeapYears(Part(digits, 0, 2), c1, y1, c2, y2, ParseNat(Part(digits, 2, 4)),
          ParseNat(Part(digits, 4, 6)));
    }
  }

  lemma SeparatedStaysUnread(a: numeral, b: numeral, c: numeral, c1: Century, y1: int, c2: Century, y2: int)
    requires SeesTwoThousand(c1, y1)
    ensures Separated(a, b, c, c1, y1).None? ==> Separated(a, b, c, c2, y2).None?
  {
    hide ToIso;
    hide ExpandYear;
    hide ParseNat;
    YearOnlyMattersInLeapYears(c, c1, y1, c2, y2, ParseNat(b), ParseNat(a));
    YearOnlyMattersInLeapYears(c, c1, y1, c2, y2, ParseNat(a), ParseNat(b));
  }

  /** A text that a first pass cannot read stays unread, whatever the later clock and century rule. */
  lemma StaysUnread(text: string, c1: Century, y1: int, c2: Century, y2: int)
    requires SeesTwoThousand(c1, y1) && ReadText(text, c1, y1).None?
    ensures ReadText(text, c2, y2).None?
  {
    hide NamedMonth;
    hide Compact;
    hide Separated;
    hide Tokens;
    hide Numbers;
    hide FirstMonth;
    var tokens := Tokens(UpperCase(text));
    var numbers, month := Numbers(tokens), FirstMonth(tokens);
    if month.Some? {
      NamedStaysUnread(numbers, month.value, c1, y1, c2, y2);
    } else if |numbers| == 1 {
      CompactStaysUnread(numbers[0], c1, y1, c2, y2);
    } else if |numbers| >= 3 {
      SeparatedStaysUnread(numbers[0], numbers[1], numbers[2], c1, y1, c2, y2);
    }
  }

  /** An ISO text reads as itself, or not at all when its year has more than four digits. */
  lemma IsoReadsAsItself(y: nat, m: nat, d: nat, century: Century, thisYear: int)
    requires y >= 1000 && RealDate(y, m, d)
    ensures ReadText(Iso(y, m, d), century, thisYear) == if y <= 9999 then Some(Iso(y, m, d)) else None
  {
    if y <= 9999 {
      hide ReadText;
      YearFirstRoundTrip(y, m, d, '-', '-', century, thisYear);
    } else {
      LongYear(y);
      TwoDigitsOf(m);
      TwoDigitsOf(d);
      hide *;
      IsoIs(y, m, d);
      ReadThree(Pad(y, 4), '-', Pad(m, 2), '-', Pad(d, 2), century, thisYear);
      LongYearIsNoDay(Pad(y, 4), Pad(m, 2), Pad(d, 2), century, thisYear);
    }
  }

  lemma IsoIs(y: nat, m: nat, d: nat)
    ensures Iso(y, m, d) == Written(Pad(y, 4), '-', Pad(m, 2), '-', Pad(d, 2))
    ensures Separator('-')
  {
  }

  lemma LongYear(y: nat)
    requires y > 9999
    ensures |Pad(y, 4)| > 4 && ParseNat(Pad(y, 4)) == y
  {
    PadReadsBack(y, 4);
    assert Pow10(2) == 100;
    assert Pow10(4) == 100 * Pow10(2);
  }

  lemma TwoDigitsOf(n: nat)
    requires n < 100
    ensures |Pad(n, 2)| == 2 && ParseNat(Pad(n, 2)) == n
  {
    PadReadsBack(n, 2);
    assert Pow10(2) == 100;
  }

  lemma LongYearIsNoDay(a: numeral, b: numeral, c: numeral, century: Century, thisYear: int)
    requires |a| > 4 && |c| == 2 && ParseNat(a) > 31
    ensures Separated(a, b, c, century, thisYear).None?
  {
  }

  lemma IsoIsTrimmed(y: nat, m: nat, d: nat)
    ensures Trim(Iso(y, m, d)) == Iso(y, m, d) && Iso(y, m, d) != ""
    ensures |Iso(y, m, d)| >= 10
  {
    PadReadsBack(y, 4);
    PadReadsBack(m, 2);
    PadReadsBack(d, 2);
    hide Pad;
    var s := Iso(y, m, d);
    assert s[0] == Pad(y, 4)[0] && IsDigit(Pad(y, 4)[0]);
    assert s[|s| - 1] == Pad(d, 2)[|Pad(d, 2)| - 1] && IsDigit(Pad(d, 2)[|Pad(d, 2)| - 1]);
    TrimKeeps(s);
  }

  lemma NormalizeIs(text: string, century: Century, thisYear: int)
    requires Trim(text) == text != ""
    ensures NormalizeIdDate(Some(text), century, thisYear)
         == Some(if ReadText(text, century, thisYear).Some? then ReadText(text, century, thisYear).value else text)
  {
    hide ReadText;
  }

  lemma NormalizeTrims(value: Option<string>, century: Century, thisYear: int)
    requires value.Some? && Trim(value.value) != ""
    ensures Trim(Trim(value.value)) == Trim(value.value)
    ensures NormalizeIdDate(value, century, thisYear) == NormalizeIdDate(Some(Trim(value.value)), century, thisYear)
  {
    hide ReadText;
    TrimTwice(value.value);
  }

  /** Normalizing again changes nothing, on any text, when the first clock already saw the year 2000. */
  lemma NormalizeTwice(value: Option<string>, c1: Century, y1: int, c2: Century, y2: int)
    requires SeesTwoThousand(c1, y1)
    ensures NormalizeIdDate(NormalizeIdDate(value, c1, y1), c2, y2) == NormalizeIdDate(value, c1, y1)
  {
    if value.Some? && Trim(value.value) != "" {
      var text := Trim(value.value);
      NormalizeTrims(value, c1, y1);
      NormalizeIs(text, c1, y1);
      if ReadText(text, c1, y1).Some? {
        ReadsAsIso(text, c1, y1, c2, y2);
      } else {
        hide *;
        StaysUnread(text, c1, y1, c2, y2);
        NormalizeIs(text, c2, y2);
      }
    }
  }

  lemma ReadTextIsIso(text: string, century: Century, thisYear: int)
    ensures FromCalendar(ReadText(text, century, thisYear))
  {
    hide FromCalendar;
    hide ReadNumbers;
    var tokens := Tokens(UpperCase(text));
    ReadingIsIso(Numbers(tokens), FirstMonth(tokens), century, thisYear);
  }

  lemma ReadsAsIso(text: string, c1: Century, y1: int, c2: Century, y2: int)
    requires ReadText(text, c1, y1).Some?
    ensures NormalizeIdDate(ReadText(text, c1, y1), c2, y2) == ReadText(text, c1, y1)
  {
    hide ReadText;
    hide ToIso;
    ReadTextIsIso(text, c1, y1);
    var y, m, d :| ToIso(y, m, d) == ReadText(text, c1, y1);
    ToIsoIsRealDate(y, m, d);
    hide *;
    IsoIsTrimmed(y, m, d);
    IsoReadsAsItself(y, m, d, c2, y2);
    NormalizeIs(Iso(y, m, d), c2, y2);
  }

  /** A leap day written with the year 00, read by a clock that takes it for 1900. */
  lemma LeapDayOf1900(century: Century, thisYear: int)
    requires !SeesTwoThousand(century, thisYear)
    ensures NormalizeIdDate(Some("29/02/00"), century, thisYear) == Some("29/02/00")
    ensures NormalizeIdDate(Some("29/02/00"), Past, 2000) == Some(Iso(2000, 2, 29)) != Some("29/02/00")
  {
    LeapDayRead(century, thisYear);
    LeapDayRead(Past, 2000);
    LeapDayTrimmed();
    IsoIsTrimmed(2000, 2, 29);
    hide *;
    NormalizeIs("29/02/00", century, thisYear);
    NormalizeIs("29/02/00", Past, 2000);
  }

  lemma LeapDayTrimmed()
    ensures Trim("29/02/00") == "29/02/00"
  {
    TrimKeeps("29/02/00");
  }

  lemma LeapDayRead(century: Century, thisYear: int)
    ensures ReadText("29/02/00", century, thisYear)
         == if SeesTwoThousand(century, thisYear) then Some(Iso(2000, 2, 29)) else None
  {
    LeapDayText();
    hide *;
    ReadThree("29", '/', "02", '/', "00", century, thisYear);
    LeapDaySeparated(century, thisYear);
  }

  lemma LeapDayText()
    ensures "29/02/00" == Written("29", '/', "02", '/', "00") && Separator('/')
    ensures AllDigits("29") && AllDigits("02") && AllDigits("00")
  {
  }

  lemma LeapDaySeparated(century: Century, thisYear: int)
    ensures Separated("29", "02", "00", century, thisYear)
         == if SeesTwoThousand(century, thisYear) then Some(Iso(2000, 2, 29)) else None
  {
    NumeralValues();
    LeapDayYear(century, thisYear);
    hide ParseNat;
    hide ExpandYear;
    hide Iso;
    hide SeesTwoThousand;
  }

  lemma LeapDayYear(century: Century, thisYear: int)
    ensures ExpandYear("00", century, thisYear) == if SeesTwoThousand(century, thisYear) then 2000 else 1900
  {
    NumeralValues();
  }

  lemma NumeralValues()
    ensures ParseNat("29") == 29 && ParseNat("02") == 2 && ParseNat("00") == 0
  {
    TwoDigits("29");
    TwoDigits("02");
    TwoDigits("00");
  }

  /**
   Normalizing is idempotent under every later clock and century rule exactly when the first clock saw the year
   2000.
   */
  lemma NormalizingIsIdempotentIff(c1: Century, y1: int)
    ensures (forall value, c2, y2 ::
               NormalizeIdDate(NormalizeIdDate(value, c1, y1), c2, y2) == NormalizeIdDate(value, c1, y1))
       <==> SeesTwoThousand(c1, y1)
  {
    if SeesTwoThousand(c1, y1) {
      hide NormalizeIdDate;
      forall value, c2, y2
        ensures NormalizeIdDate(NormalizeIdDate(value, c1, y1), c2, y2) == NormalizeIdDate(value, c1, y1) {
        NormalizeTwice(value, c1, y1, c2, y2);
      }
    } else {
      hide NormalizeIdDate;
      LeapDayOf1900(c1, y1);
      var value := Some("29/02/00");
      assert NormalizeIdDate(NormalizeIdDate(value, c1, y1), Past, 2000) != NormalizeIdDate(value, c1, y1);
    }
  }

  // ---- expiry ----------------------------------------------------------------------------------------------

  lemma {:induction false} LexAppend(a: string, x: string, b: string, y: string)
    requires |a| == |b|
    ensures LexLess(a + x, b + y) <==> LexLess(a, b) || (a == b && LexLess(x, y))
  {
    if a == "" {
      assert a + x == x && b + y == y;
    } else {
      LexAppend(a[1..], x, b[1..], y);
      assert (a + x)[1..] == a[1..] + x && (b + y)[1..] == b[1..] + y;
      assert a == b <==> a[0] == b[0] && a[1..] == b[1..] by {
        assert a == [a[0]] + a[1..] && b == [b[0]] + b[1..];
      }
    }
  }

  /** Numerals of one width compare as numbers. */
  lemma {:induction false} LexNumerals(a: string, b: string)
    requires |a| == |b| && AllDigits(a) && AllDigits(b)
    ensures LexLess(a, b) <==> ParseNat(a) < ParseNat(b)
    ensures a == b <==> ParseNat(a) == ParseNat(b)
  {
    if a != "" {
      var a', b' := a[..|a| - 1], b[..|b| - 1];
      LexNumerals(a', b');
      LexAppend(a', [a[|a| - 1]], b', [b[|b| - 1]]);
      assert a == a' + [a[|a| - 1]] && b == b' + [b[|b| - 1]];
      LexOne(a[|a| - 1], b[|b| - 1]);
    }
  }

  lemma LexOne(c: char, d: char)
    ensures LexLess([c], [d]) <==> c < d
  {
  }

  predicate Earlier(y: nat, m: nat, d: nat, y': nat, m': nat, d': nat) {
    y < y' || (y == y' && (m < m' || (m == m' && d < d')))
  }

  /** The texts of two dates with four-digit years compare as the days do in the calendar. */
  lemma IsoOrderIsCalendarOrder(y: nat, m: nat, d: nat, y': nat, m': nat, d': nat)
    requires y <= 9999 && y' <= 9999 && m < 100 && m' < 100 && d < 100 && d' < 100
    ensures LexLess(Iso(y, m, d), Iso(y', m', d')) <==> Earlier(y, m, d, y', m', d')
  {
    FourDigitsOf(y);
    FourDigitsOf(y');
    TwoDigitsOf(m);
    TwoDigitsOf(m');
    TwoDigitsOf(d);
    TwoDigitsOf(d');
    hide Pad;
    hide ParseNat;
    hide LexLess;
    LexNumerals(Pad(y, 4), Pad(y', 4));
    LexNumerals(Pad(m, 2), Pad(m', 2));
    LexNumerals(Pad(d, 2), Pad(d', 2));
    LexWritten(Pad(y, 4), Pad(m, 2), Pad(d, 2), Pad(y', 4), Pad(m', 2), Pad(d', 2));
  }

  lemma FourDigitsOf(n: nat)
    requires n <= 9999
    ensures |Pad(n, 4)| == 4 && ParseNat(Pad(n, 4)) == n
  {
    PadReadsBack(n, 4);
    assert Pow10(2) == 100;
    assert Pow10(4) == 100 * Pow10(2);
  }

  lemma LexWritten(a: string, b: string, c: string, a': string, b': string, c': string)
    requires |a| == |a'| && |b| == |b'| && |c| == |c'|
    ensures LexLess(Written(a, '-', b, '-', c), Written(a', '-', b', '-', c'))
       <==> LexLess(a, a') || (a == a' && (LexLess(b, b') || (b == b' && LexLess(c, c'))))
  {
    LexDash(a, b + ['-'] + c, a', b' + ['-'] + c');
    LexDash(b, c, b', c');
  }

  lemma LexDash(a: string, x: string, b: string, y: string)
    requires |a| == |b|
    ensures LexLess(a + ['-'] + x, b + ['-'] + y) <==> LexLess(a, b) || (a == b && LexLess(x, y))
  {
    LexAppend(a, ['-'] + x, b, ['-'] + y);
    assert a + ['-'] + x == a + (['-'] + x) && b + ['-'] + y == b + (['-'] + y);
    assert (['-'] + x)[1..] == x && (['-'] + y)[1..] == y;
  }

  /**
   A document whose expiry date was read with a four-digit year is expired exactly when that day lies before
   today.
   */
  lemma ExpiredIsBeforeToday(expiry: Option<string>, y: nat, m: nat, d: nat, today: (nat, nat, nat))
    requires ParseIdDate(expiry, Future, today.0) == Some(Iso(y, m, d)) && RealDate(y, m, d) && y <= 9999
    requires RealDate(today.0, today.1, today.2) && today.0 <= 9999
    ensures IsExpired(expiry, today) == Some(Earlier(y, m, d, today.0, today.1, today.2))
  {
    hide ParseIdDate;
    hide LexLess;
    hide Iso;
    IsoOrderIsCalendarOrder(y, m, d, today.0, today.1, today.2);
  }

  /** The text comparison looks at the first four digits of a longer year only. */
  lemma LongYearOrder(y: nat, m: nat, d: nat, today: (nat, nat, nat))
    requires y > 9999 && today.0 <= 9999
    ensures |Pad(y, 4)| > 4 && AllDigits(Pad(y, 4)[..4])
    ensures LexLess(Iso(y, m, d), Iso(today.0, today.1, today.2)) <==> ParseNat(Pad(y, 4)[..4]) < today.0
  {
    LongYear(y);
    FourDigitsOf(today.0);
    var long, now := Pad(y, 4), Pad(today.0, 4);
    hide Pad;
    hide ParseNat;
    LexNumerals(long[..4], now);
    LongIso(y, m, d);
    assert long == long[..4] + long[4..];
    LexLonger(long[..4], long[4..], Pad(m, 2) + ['-'] + Pad(d, 2), now, Pad(today.1, 2) + ['-'] + Pad(today.2, 2));
  }

  lemma AsNamedLong(numbers: seq<numeral>, month: nat, century: Century, thisYear: int)
    requires |numbers| == 2 && |numbers[0]| == 2 && |numbers[1]| > 4
    ensures ReadNumbers(numbers, Some(month), century, thisYear)
         == ToIso(ParseNat(numbers[1]), month, ParseNat(numbers[0]))
  {
  }

  /** A day of a longer year is read from its printed form with the month's name. */
  lemma LongYearIsRead(
      y: nat, m: nat, d: nat, name: string, p: char, q: char, century: Century, thisYear: int)
    requires y > 9999 && RealDate(y, m, d) && Separator(p) && Separator(q)
    requires AllLetters(UpperCase(name)) && MonthFromName(UpperCase(name)) == Some(m)
    ensures ReadText(Written(Pad(d, 2), p, name, q, Pad(y, 4)), century, thisYear) == Some(Iso(y, m, d))
  {
    assert d <= 31;
    TwoDigitsOf(d);
    LongYear(y);
    hide *;
    ReadNamed(Pad(d, 2), p, name, q, Pad(y, 4), century, thisYear);
    AsNamedLong([Pad(d, 2), Pad(y, 4)], m, century, thisYear);
    ToIsoIsRealDate(y, m, d);
  }

  /**
   A document printed to expire in a longer year, which is yet to come, is said to be expired exactly
   when the first four digits of that year are below the current year.
   */
  lemma LongYearExpiry(y: nat, m: nat, d: nat, name: string, p: char, q: char, today: (nat, nat, nat))
    requires y > 9999 && RealDate(y, m, d) && Separator(p) && Separator(q) && today.0 <= 9999
    requires AllLetters(UpperCase(name)) && MonthFromName(UpperCase(name)) == Some(m)
    ensures !Earlier(y, m, d, today.0, today.1, today.2)
    ensures |Pad(y, 4)| > 4 && AllDigits(Pad(y, 4)[..4])
    ensures IsExpired(Some(Written(Pad(d, 2), p, name, q, Pad(y, 4))), today)
         == Some(ParseNat(Pad(y, 4)[..4]) < today.0)
  {
    LongYearIsRead(y, m, d, name, p, q, Future, today.0);
    LongYearOrder(y, m, d, today);
    hide ReadText;
    hide LexLess;
    hide Iso;
    hide Written;
    hide Pad;
    hide ParseNat;
  }

  /** In any year from 1235 on, a document printed to expire on 12 AUG 12345 is said to be expired. */
  lemma ExpiredTooEarly(today: (nat, nat, nat))
    requires 1235 <= today.0 <= 9999
    ensures IsExpired(Some("12 AUG 12345"), today) == Some(true)
  {
    PrintedLongYear();
    hide *;
    LongYearExpiry(12345, 8, 12, "AUG", ' ', ' ', today);
  }

  lemma PrintedLongYear()
    ensures Written(Pad(12, 2), ' ', "AUG", ' ', Pad(12345, 4)) == "12 AUG 12345"
    ensures RealDate(12345, 8, 12) && Separator(' ')
    ensures AllLetters(UpperCase("AUG")) && MonthFromName(UpperCase("AUG")) == Some(8)
    ensures |Pad(12345, 4)| > 4 && AllDigits(Pad(12345, 4)[..4]) && ParseNat(Pad(12345, 4)[..4]) == 1234
  {
    NumeralsOfExample();
    August();
    hide Pad;
    hide ParseNat;
    hide MonthFromName;
    hide UpperCase;
    assert "12345"[..4] == "1234";
  }

  lemma NumeralsOfExample()
    ensures Pad(12, 2) == "12" && Pad(12345, 4) == "12345" && AllDigits("1234") && ParseNat("1234") == 1234
  {
    NumeralRoundTrip(1234);
    assert NatToString(1) == "1";
    assert NatToString(12) == "12";
    assert NatToString(123) == "123";
    assert NatToString(1234) == "1234";
    assert NatToString(12345) == "12345";
  }

  lemma August()
    ensures AllLetters(UpperCase("AUG")) && MonthFromName(UpperCase("AUG")) == Some(8)
  {
    UpperFixes("AUG");
    hide UpperCase;
    assert "AUG"[0] == 'A' && "AUG"[1] == 'U' && "AUG" <= "AUG";
  }

  lemma LongIso(y: nat, m: nat, d: nat)
    ensures Iso(y, m, d) == Pad(y, 4) + ['-'] + (Pad(m, 2) + ['-'] + Pad(d, 2))
  {
  }

  lemma LexLonger(a: string, more: string, x: string, b: string, y: string)
    requires |a| == |b| && more != "" && AllDigits(more)
    ensures LexLess(a + more + ['-'] + x, b + ['-'] + y) <==> LexLess(a, b)
  {
    LexAppend(a, more + (['-'] + x), b, ['-'] + y);
    assert a + more + ['-'] + x == a + (more + (['-'] + x)) && b + ['-'] + y == b + (['-'] + y);
    assert (more + (['-'] + x))[0] == more[0] && (['-'] + y)[0] == '-';
    assert IsDigit(more[0]);
  }

  // ---- matching ----------------------------------------------------------------------------------------------

  /** The ISO texts of two days are equal only for the same day, however many digits the years have. */
  lemma IsoIsUnique(y: nat, m: nat, d: nat, y': nat, m': nat, d': nat)
    requires m < 100 && d < 100 && m' < 100 && d' < 100 && Iso(y, m, d) == Iso(y', m', d')
    ensures y == y' && m == m' && d == d'
  {
    TwoDigitsOf(m);
    TwoDigitsOf(m');
    TwoDigitsOf(d);
    TwoDigitsOf(d');
    PadReadsBack(y, 4);
    PadReadsBack(y', 4);
    hide *;
    IsoIs(y, m, d);
    IsoIs(y', m', d');
    PartsOfWritten(Pad(y, 4), Pad(m, 2), Pad(d, 2));
    PartsOfWritten(Pad(y', 4), Pad(m', 2), Pad(d', 2));
  }

  /** With two digits in each of the last two parts, the text has one reading from the end. */
  lemma PartsOfWritten(a: string, b: string, c: string)
    requires |b| == 2 && |c| == 2
    ensures |Written(a, '-', b, '-', c)| == |a| + 6
    ensures Written(a, '-', b, '-', c)[..|Written(a, '-', b, '-', c)| - 6] == a
    ensures Written(a, '-', b, '-', c)[|Written(a, '-', b, '-', c)| - 5..|Written(a, '-', b, '-', c)| - 3] == b
    ensures Written(a, '-', b, '-', c)[|Written(a, '-', b, '-', c)| - 2..] == c
  {
    assert Written(a, '-', b, '-', c) == a + ['-'] + b + ['-'] + c;
  }

  /** Two texts that read as days match exactly when it is the same day, however each was written. */
  lemma DatesMatchIffSameDay(
    a: string, b: string, y: nat, m: nat, d: nat, y': nat, m': nat, d': nat, century: Century, thisYear: int)
    requires ReadText(a, century, thisYear) == Some(Iso(y, m, d)) && RealDate(y, m, d)
    requires ReadText(b, century, thisYear) == Some(Iso(y', m', d')) && RealDate(y', m', d')
    ensures DatesMatch(Some(a), b, century, thisYear) <==> (y == y' && m == m' && d == d')
  {
    hide ReadText;
    hide Iso;
    if Iso(y, m, d) == Iso(y', m', d') { IsoIsUnique(y, m, d, y', m', d'); }
  }

  /** A day written day first matches itself written year first. */
  lemma SameDayMatchesAcrossForms(y: nat, m: nat, d: nat, p: char, q: char, century: Century, thisYear: int)
    requires 1000 <= y <= 9999 && RealDate(y, m, d) && Separator(p) && Separator(q)
    ensures DatesMatch(Some(Written(Pad(d, 2), p, Pad(m, 2), q, Pad(y, 4))),
        Written(Pad(y, 4), p, Pad(m, 2), q, Pad(d, 2)), century, thisYear)
  {
    hide ReadText;
    YearFirstRoundTrip(y, m, d, p, q, century, thisYear);
    DayFirstRoundTrip(y, m, d, p, q, century, thisYear);
  }
}
