/** The forms in which dates are printed on identity documents: the calendar, month names, short years. */
module IdDateForms {
  import opened IdDates
  import opened Options
  import opened Text

  // ---- the calendar ------------------------------------------------------------------------------------

  /** A day of the calendar, up to the last that a timestamp can hold, 13 September 275760. */
  predicate OnCalendar(y: nat, m: nat, d: nat) {
    && 1 <= d <= 31 && 1 <= m <= 12
    && (m in {4, 6, 9, 11} ==> d <= 30)
    && (m == 2 ==> d <= 29)
    && (m == 2 && d == 29 ==> y % 400 == 0 || (y % 4 == 0 && y % 100 != 0))
    && y <= 275760 && (y == 275760 ==> m < 9 || (m == 9 && d <= 13))
  }

  /** Exactly the days of the calendar from the year 1000 on are accepted, and printed with their own numbers. */
  lemma AcceptedIffOnCalendar(y: nat, m: nat, d: nat)
    ensures ToIso(y, m, d).Some? <==> y >= 1000 && OnCalendar(y, m, d)
    ensures ToIso(y, m, d).Some? ==>
              ToIso(y, m, d) == Some(Pad(y, 4) + "-" + Pad(m, 2) + "-" + Pad(d, 2))
    ensures RealDate(y, m, d) <==> OnCalendar(y, m, d)
  {
    hide Pad;
    var yy, mm, dd := Pad(y, 4), Pad(m, 2), Pad(d, 2);
    assert Iso(y, m, d) == yy + "-" + mm + "-" + dd;
  }

  // ---- month names -------------------------------------------------------------------------------------

  /** How the name of a month begins, in English or French. */
  function Beginnings(m: nat): set<string> {
    if m == 1 then {"JAN"} else if m == 2 then {"FEB", "FEV"} else if m == 3 then {"MAR"}
    else if m == 4 then {"APR", "AVR"} else if m == 5 then {"MAY", "MAI"} else if m == 6 then {"JUN", "JUIN"}
    else if m == 7 then {"JUL", "JUIL"} else if m == 8 then {"AUG", "AOU"} else if m == 9 then {"SEP"}
    else if m == 10 then {"OCT"} else if m == 11 then {"NOV"} else if m == 12 then {"DEC"} else {}
  }

  predicate BeginsLike(token: string, m: nat) { exists b :: b in Beginnings(m) && b <= token }

  /** A name is taken for a month exactly when it begins like that month's. */
  lemma MonthIffBegins(token: string, m: nat)
    ensures MonthFromName(token) == Some(m) <==> BeginsLike(token, m)
  {
    if BeginsLike(token, m) {
      var b :| b in Beginnings(m) && b <= token;
      assert |b| >= 3 && token[0] == b[0] && token[1] == b[1] && token[2] == b[2];
      BeginningMeans(token, m, b);
    } else if MonthFromName(token) == Some(m) {
      MonthBegins(token, m);
    }
  }

  lemma BeginningMeans(token: string, m: nat, b: string)
    requires b in Beginnings(m) && b <= token && |b| >= 3
    requires token[0] == b[0] && token[1] == b[1] && token[2] == b[2]
    ensures MonthFromName(token) == Some(m)
  {
    hide MonthFromName;
    if m <= 4 {
      EarlyBeginning(token, m, b);
    } else if m <= 7 {
      MiddleBeginning(token, m, b);
    } else {
      LateBeginning(token, m, b);
    }
  }

  lemma EarlyBeginning(token: string, m: nat, b: string)
    requires m <= 4 && b in Beginnings(m) && b <= token && |b| >= 3
    requires token[0] == b[0] && token[1] == b[1] && token[2] == b[2]
    ensures MonthFromName(token) == Some(m)
  {
  }

  lemma MiddleBeginning(token: string, m: nat, b: string)
    requires 5 <= m <= 7 && b in Beginnings(m) && b <= token && |b| >= 3
    requires token[0] == b[0] && token[1] == b[1] && token[2] == b[2]
    ensures MonthFromName(token) == Some(m)
  {
    if |b| == 4 { assert token[3] == b[3]; }
  }

  lemma LateBeginning(token: string, m: nat, b: string)
    requires m >= 8 && b in Beginnings(m) && b <= token && |b| >= 3
    requires token[0] == b[0] && token[1] == b[1] && token[2] == b[2]
    ensures MonthFromName(token) == Some(m)
  {
  }

  lemma MonthBegins(token: string, m: nat)
    requires MonthFromName(token) == Some(m)
    ensures BeginsLike(token, m)
  {
    assert "JUIN" in Beginnings(6) && "JUN" in Beginnings(6) && "JUIL" in Beginnings(7) && "JUL" in Beginnings(7);
    assert "JAN" in Beginnings(1) && "FEB" in Beginnings(2) && "FEV" in Beginnings(2) && "MAR" in Beginnings(3);
    assert "APR" in Beginnings(4) && "AVR" in Beginnings(4) && "MAY" in Beginnings(5) && "MAI" in Beginnings(5);
    assert "AUG" in Beginnings(8) && "AOU" in Beginnings(8) && "SEP" in Beginnings(9) && "OCT" in Beginnings(10);
    assert "NOV" in Beginnings(11) && "DEC" in Beginnings(12);
    hide Beginnings;
  }

  /** The text spells the name, in whatever letter case. */
  predicate Spells(text: string, name: string) {
    |text| == |name|
    && forall i :: 0 <= i < |text| ==>
         'A' <= name[i] <= 'Z' && (text[i] == name[i] || text[i] as int == name[i] as int + 32)
  }

  lemma SpelledInCapitals(text: string, name: string)
    requires Spells(text, name)
    ensures UpperCase(text) == name && AllLetters(name)
  {
    forall i | 0 <= i < |text| ensures UpperCase(text)[i] == name[i] {}
  }

  /** A date with its month spelled out in any letter case reads back, day first and year first. */
  lemma SpelledMonthReadsBack(
      y: nat, m: nat, d: nat, text: string, name: string, p: char, q: char, century: Century, thisYear: int)
    requires 1000 <= y <= 9999 && OnCalendar(y, m, d) && Separator(p) && Separator(q)
    requires Spells(text, name) && BeginsLike(name, m)
    ensures ReadText(Written(Pad(d, 2), p, text, q, Pad(y, 4)), century, thisYear) == Some(Iso(y, m, d))
    ensures ReadText(Written(Pad(y, 4), p, text, q, Pad(d, 2)), century, thisYear) == Some(Iso(y, m, d))
  {
    hide *;
    AcceptedIffOnCalendar(y, m, d);
    SpelledInCapitals(text, name);
    MonthIffBegins(name, m);
    MonthNameRoundTrip(y, m, d, text, p, q, century, thisYear);
  }

  // ---- short years -------------------------------------------------------------------------------------

  /** The years that two digits can stand for under this clock. */
  predicate InWindow(y: nat, century: Century, thisYear: int) {
    && y >= 1000
    && (century.Past? ==> 1999 <= thisYear <= 2099 && thisYear - 99 <= y <= thisYear)
    && (century.Future? ==> 1949 <= thisYear <= 2049 && thisYear - 49 <= y <= thisYear + 50)
  }

  lemma ShortYear(y: nat, century: Century, thisYear: int)
    requires InWindow(y, century, thisYear)
    ensures |Pad(y % 100, 2)| == 2 && ExpandYear(Pad(y % 100, 2), century, thisYear) == y
  {
    TwoDigitsOf(y % 100);
    PastWindow(thisYear);
    FutureWindow(thisYear);
    hide Pad;
    hide ParseNat;
  }

  lemma ShortDate(y: nat, m: nat, d: nat)
    requires OnCalendar(y, m, d) && y >= 1000
    ensures |Pad(m, 2)| == 2 && ParseNat(Pad(m, 2)) == m && |Pad(d, 2)| == 2 && ParseNat(Pad(d, 2)) == d
    ensures ToIso(y, m, d) == Some(Iso(y, m, d))
  {
    TwoDigitsOf(m);
    TwoDigitsOf(d);
    AcceptedIffOnCalendar(y, m, d);
    ToIsoIsRealDate(y, m, d);
    hide Pad;
    hide ParseNat;
    hide Iso;
  }

  lemma SixParts(a: numeral, b: numeral, c: numeral)
    requires |a| == 2 && |b| == 2 && |c| == 2
    ensures Part(Glued(a, b, c), 0, 2) == a && Part(Glued(a, b, c), 2, 4) == b && Part(Glued(a, b, c), 4, 6) == c
  {
  }

  lemma CompactSix(digits: numeral, century: Century, thisYear: int)
    requires |digits| == 6
    ensures Compact(digits, century, thisYear)
         == ToIso(ExpandYear(Part(digits, 0, 2), century, thisYear), ParseNat(Part(digits, 2, 4)),
                  ParseNat(Part(digits, 4, 6)))
  {
  }

  /** The six digits of a machine-readable zone read back for the years two digits can stand for. */
  lemma SixDigitsReadBack(y: nat, m: nat, d: nat, century: Century, thisYear: int)
    requires OnCalendar(y, m, d) && InWindow(y, century, thisYear)
    ensures ReadText(Glued(Pad(y % 100, 2), Pad(m, 2), Pad(d, 2)), century, thisYear) == Some(Iso(y, m, d))
  {
    WindowIsRecent(y, century, thisYear);
    hide *;
    ShortYear(y, century, thisYear);
    ShortDate(y, m, d);
    SixParts(Pad(y % 100, 2), Pad(m, 2), Pad(d, 2));
    ReadOne(Glued(Pad(y % 100, 2), Pad(m, 2), Pad(d, 2)), century, thisYear);
    CompactSix(Glued(Pad(y % 100, 2), Pad(m, 2), Pad(d, 2)), century, thisYear);
  }

  lemma WindowIsRecent(y: nat, century: Century, thisYear: int)
    requires InWindow(y, century, thisYear)
    ensures y >= 1000
  {
  }

  lemma SeparatedShort(a: numeral, b: numeral, c: numeral, century: Century, thisYear: int)
    requires |a| == 2 && |c| == 2 && ToIso(ExpandYear(c, century, thisYear), ParseNat(b), ParseNat(a)).Some?
    ensures Separated(a, b, c, century, thisYear) == ToIso(ExpandYear(c, century, thisYear), ParseNat(b), ParseNat(a))
  {
    hide ToIso;
    hide ExpandYear;
    hide ParseNat;
  }

  /** DD/MM/YY reads back for these years. */
  lemma ShortDayFirstReadsBack(y: nat, m: nat, d: nat, p: char, q: char, century: Century, thisYear: int)
    requires OnCalendar(y, m, d) && InWindow(y, century, thisYear) && Separator(p) && Separator(q)
    ensures ReadText(Written(Pad(d, 2), p, Pad(m, 2), q, Pad(y % 100, 2)), century, thisYear) == Some(Iso(y, m, d))
  {
    WindowIsRecent(y, century, thisYear);
    hide *;
    ShortYear(y, century, thisYear);
    ShortDate(y, m, d);
    ReadThree(Pad(d, 2), p, Pad(m, 2), q, Pad(y % 100, 2), century, thisYear);
    SeparatedShort(Pad(d, 2), Pad(m, 2), Pad(y % 100, 2), century, thisYear);
  }

  lemma NamedShort(a: numeral, c: numeral, month: nat, century: Century, thisYear: int)
    requires |a| == 2
    ensures ReadNumbers([a, c], Some(month), century, thisYear)
         == ToIso(ExpandYear(c, century, thisYear), month, ParseNat(a))
  {
    hide ToIso;
    hide ExpandYear;
    hide ParseNat;
  }

  /** So does the day, the month's name and two digits. */
  lemma ShortNamedReadsBack(
      y: nat, m: nat, d: nat, text: string, name: string, p: char, q: char, century: Century, thisYear: int)
    requires OnCalendar(y, m, d) && InWindow(y, century, thisYear) && Separator(p) && Separator(q)
    requires Spells(text, name) && BeginsLike(name, m)
    ensures ReadText(Written(Pad(d, 2), p, text, q, Pad(y % 100, 2)), century, thisYear) == Some(Iso(y, m, d))
  {
    WindowIsRecent(y, century, thisYear);
    hide *;
    ShortYear(y, century, thisYear);
    ShortDate(y, m, d);
    SpelledInCapitals(text, name);
    MonthIffBegins(name, m);
    ReadNamed(Pad(d, 2), p, text, q, Pad(y % 100, 2), century, thisYear);
    NamedShort(Pad(d, 2), Pad(y % 100, 2), m, century, thisYear);
  }

  lemma SeparatedMonthFirst(a: numeral, b: numeral, c: numeral, century: Century, thisYear: int)
    requires |a| == 2 && |c| == 4 && ParseNat(b) > 12
    ensures Separated(a, b, c, century, thisYear) == ToIso(ParseNat(c), ParseNat(a), ParseNat(b))
  {
    hide ParseNat;
    hide Iso;
    hide Rolled;
  }

  /** MM/DD/YYYY reads back when the day is past the twelfth; until then the day is taken to come first. */
  lemma MonthFirstReadsBack(y: nat, m: nat, d: nat, p: char, q: char, century: Century, thisYear: int)
    requires 1000 <= y <= 9999 && OnCalendar(y, m, d) && d > 12 && Separator(p) && Separator(q)
    ensures ReadText(Written(Pad(m, 2), p, Pad(d, 2), q, Pad(y, 4)), century, thisYear) == Some(Iso(y, m, d))
  {
    hide *;
    AcceptedIffOnCalendar(y, m, d);
    FourDigitsOf(y);
    FourDigitsMean(y);
    ShortDate(y, m, d);
    ReadThree(Pad(m, 2), p, Pad(d, 2), q, Pad(y, 4), century, thisYear);
    SeparatedMonthFirst(Pad(m, 2), Pad(d, 2), Pad(y, 4), century, thisYear);
  }

  lemma FourDigitsMean(y: nat)
    requires y <= 9999
    ensures |Pad(y, 4)| == 4 && ParseNat(Pad(y, 4)) == y
  {
    FourDigitsOf(y);
  }

  /** Two numbers without a month's name are no date, nor is one unless it has six or eight digits. */
  lemma OneOrTwoNumbers(a: numeral, b: numeral, century: Century, thisYear: int)
    ensures ReadNumbers([a, b], None, century, thisYear) == None
    ensures |a| !in {6, 8} ==> ReadNumbers([a], None, century, thisYear) == None
  {
    hide ToIso;
  }
}
