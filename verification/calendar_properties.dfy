/**
 * Properties of the calendar helpers that relate an operation to an
 * independent description of what it computes: decades as rounding,
 * same-day as equality of the day-truncated date, the machine format as
 * something a split on `-` decodes, and the counter as a sequence of
 * consecutive ids.
 */
module CalendarProperties {

  import opened Optional
  import opened Decimal
  import opened Text
  import opened CalendarUtil

  // ---------------------------------------------------------------- getDecade

  /** A year that is already a multiple of ten is its own decade. */
  lemma DecadeOfMultipleOfTen(date: Date)
    requires date.year % 10 == 0
    ensures GetDecade(date) == date.year
  {
  }

  /**
   * For a non-negative year the decade is the only multiple of ten in
   * `(year - 10, year]`.
   */
  lemma DecadeIsUnique(date: Date, m: int)
    requires date.year >= 0
    requires m % 10 == 0 && m <= date.year && date.year - m < 10
    ensures m == GetDecade(date)
  {
    var d := GetDecade(date);
    assert m == (m / 10) * 10 && d == (d / 10) * 10;
  }

  /**
   * The decade agrees with rounding the year toward zero by whole-number
   * division: down for non-negative years, up for negative ones.
   */
  lemma DecadeIsTruncatedDivision(date: Date)
    ensures date.year >= 0 ==> GetDecade(date) == (date.year / 10) * 10
    ensures date.year < 0 ==> GetDecade(date) == -(((-date.year) / 10) * 10)
  {
  }

  /** Taking the decade of a decade changes nothing. */
  lemma DecadeIsIdempotent(date: Date)
    ensures GetDecade(date.(year := GetDecade(date))) == GetDecade(date)
  {
    DecadeOfMultipleOfTen(date.(year := GetDecade(date)));
  }

  // ---------------------------------------------------------------- isSameDay

  /**
   * Two present dates are on the same day exactly when they are equal once
   * their time of day is cleared.
   */
  lemma IsSameDayIffSameStartOfDay(a: Date, b: Date)
    ensures IsSameDay(Some(a), Some(b)) <==> StartOfDay(a) == StartOfDay(b)
  {
  }

  /** Comparison is symmetric for present and absent arguments alike. */
  lemma IsSameDayIsSymmetric(x: Option<Date>, y: Option<Date>)
    ensures IsSameDay(x, y) == IsSameDay(y, x)
  {
  }

  /** Every present date is on the same day as itself; an absent one is not. */
  lemma IsSameDayIsReflexiveOnPresentDates(x: Option<Date>)
    ensures IsSameDay(x, x) <==> x.Some?
  {
  }

  lemma IsSameDayIsTransitive(x: Option<Date>, y: Option<Date>, z: Option<Date>)
    requires IsSameDay(x, y) && IsSameDay(y, z)
    ensures IsSameDay(x, z)
  {
  }

  /** Changing the time of day of either argument never changes the answer. */
  lemma IsSameDayIgnoresTimeOfDay(a: Date, b: Date, t: TimeOfDay)
    ensures IsSameDay(Some(a.(time := t)), Some(b)) == IsSameDay(Some(a), Some(b))
    ensures IsSameDay(Some(a), Some(a.(time := t)))
  {
  }

  // ------------------------------------------------------------- padWithZero

  /** A two-character digit string is the tens digit followed by the units digit of its value. */
  lemma TwoDigitString(s: string)
    requires |s| == 2 && AllDigits(s)
    ensures Value(s) < 100
    ensures s == [DigitChar(Value(s) / 10), DigitChar(Value(s) % 10)]
  {
    assert s[..1][..0] == [];
    assert Value(s[..1]) == DigitValue(s[0]);
    assert Value(s) == DigitValue(s[0]) * 10 + DigitValue(s[1]);
    DigitCharOfValue(s[0]);
    DigitCharOfValue(s[1]);
  }

  /**
   * Padding a number below 100 to width two gives exactly its two decimal
   * digits, tens first.
   */
  lemma PadToTwoDigits(n: nat)
    requires n < 100
    ensures PadWithZero(n, 2) == [DigitChar(n / 10), DigitChar(n % 10)]
  {
    NatToStringLength(n);
    var r := PadWithZero(n, 2);
    assert |NatToString(n)| <= 2;
    TwoDigitString(r);
  }

  lemma TensDigitIsZero(n: nat)
    requires n < 100
    ensures DigitChar(n / 10) == '0' <==> n < 10
  {
    assert DigitValue(DigitChar(n / 10)) == n / 10;
  }

  /** The month part is the two digits of the one-based month, "01" to "12". */
  lemma MonthPartIsTwoDigits(date: Date)
    ensures MonthPart(date) == [DigitChar((date.month + 1) / 10), DigitChar((date.month + 1) % 10)]
    ensures MonthPart(date)[0] == '0' <==> date.month < 9
    ensures Value(MonthPart(date)) == date.month + 1
  {
    var n := date.month + 1;
    assert MonthPart(date) == PadWithZero(n, 2);
    TwoDigitString(MonthPart(date));
    TensDigitIsZero(n);
  }

  /** The day part is the two digits of the day of the month, "01" to "31". */
  lemma DayPartIsTwoDigits(date: Date)
    ensures DayPart(date) == [DigitChar(date.day / 10), DigitChar(date.day % 10)]
    ensures DayPart(date)[0] == '0' <==> date.day < 10
    ensures Value(DayPart(date)) == date.day
  {
    assert DayPart(date) == PadWithZero(date.day, 2);
    TwoDigitString(DayPart(date));
    TensDigitIsZero(date.day);
  }

  // ----------------------------------------------------------- machineFormat

  /** How many of the three flags are truthy: the number of parts. */
  function FlagCount(year: Flag, month: Flag, day: Flag): nat {
    (if Truthy(year) then 1 else 0) + (if Truthy(month) then 1 else 0) + (if Truthy(day) then 1 else 0)
  }

  /** The numbers the format is meant to show: year, one-based month, day, as requested. */
  function Fields(date: Date, year: Flag, month: Flag, day: Flag): seq<int> {
    Select(Truthy(year), Truthy(month), Truthy(day), date.year, date.month + 1, date.day)
  }

  /** Whether the output starts with the minus sign of a requested negative year. */
  predicate SignedYear(date: Date, year: Flag) {
    Truthy(year) && date.year < 0
  }

  function YearMagnitude(date: Date): nat {
    if date.year < 0 then -date.year else date.year
  }

  /** The digit runs of the output: the requested parts with the year's sign dropped. */
  function Magnitudes(date: Date, year: Flag, month: Flag, day: Flag): seq<string> {
    Select(Truthy(year), Truthy(month), Truthy(day), NatToString(YearMagnitude(date)), MonthPart(date), DayPart(date))
  }

  /** A piece the reader accepts: a non-empty run of decimal digits. */
  predicate IsNumeral(p: string) {
    p != [] && AllDigits(p)
  }

  predicate AllNumerals(pieces: seq<string>) {
    forall i :: 0 <= i < |pieces| ==> IsNumeral(pieces[i])
  }

  /** The numbers a list of numerals denote, in order. */
  function Numbers(pieces: seq<string>): (ns: seq<int>)
    requires AllNumerals(pieces)
    ensures |ns| == |pieces|
    ensures forall i :: 0 <= i < |pieces| ==> ns[i] == Value(pieces[i])
    decreases |pieces|
  {
    if pieces == [] then [] else [Value(pieces[0])] + Numbers(pieces[1..])
  }

  /** The numbers of a list of pieces, or `None` when a piece is empty or not all digits. */
  function DecodeNumbers(pieces: seq<string>): Option<seq<int>> {
    if AllNumerals(pieces) then Some(Numbers(pieces)) else None
  }

  /**
   * A reader for the machine format: split on `-` and read each piece as a
   * number. An empty first piece is the minus sign of a negative first number.
   */
  function ParseMachineFormat(s: string): Option<seq<int>> {
    if s == [] then Some([])
    else
      var pieces := Split(s, '-');
      if pieces[0] != [] then DecodeNumbers(pieces)
      else
        match DecodeNumbers(pieces[1..])
        case Some(ns) => if ns == [] then None else Some([-ns[0]] + ns[1..])
        case None => None
  }

  lemma DigitsHaveNoDash(s: string)
    requires AllDigits(s)
    ensures '-' !in s
  {
  }

  lemma NumbersAppend(a: seq<string>, b: seq<string>)
    requires AllNumerals(a) && AllNumerals(b)
    ensures AllNumerals(a + b)
    ensures Numbers(a + b) == Numbers(a) + Numbers(b)
  {
    forall i | 0 <= i < |a + b|
      ensures IsNumeral((a + b)[i])
    {
      if i < |a| {
        assert (a + b)[i] == a[i];
      } else {
        assert (a + b)[i] == b[i - |a|];
      }
    }
    var l, r := Numbers(a + b), Numbers(a) + Numbers(b);
    forall i | 0 <= i < |l|
      ensures l[i] == r[i]
    {
      if i < |a| {
        assert (a + b)[i] == a[i];
      } else {
        assert (a + b)[i] == b[i - |a|];
      }
    }
  }

  /** Selected numerals, in order, decode to their selected values in the same order. */
  lemma DecodeSelected(fy: bool, fm: bool, fd: bool, y: string, m: string, d: string, yv: int, mv: int, dv: int)
    requires fy ==> IsNumeral(y) && Value(y) == yv
    requires fm ==> IsNumeral(m) && Value(m) == mv
    requires fd ==> IsNumeral(d) && Value(d) == dv
    ensures DecodeNumbers(Select(fy, fm, fd, y, m, d)) == Some(Select(fy, fm, fd, yv, mv, dv))
  {
    var ys, ms, ds := if fy then [y] else [], if fm then [m] else [], if fd then [d] else [];
    DecodeOptional(fy, y, yv);
    DecodeOptional(fm, m, mv);
    DecodeOptional(fd, d, dv);
    NumbersAppend(ys, ms);
    NumbersAppend(ys + ms, ds);
    assert Select(fy, fm, fd, y, m, d) == ys + ms + ds;
  }

  lemma DecodeOptional(f: bool, p: string, v: int)
    requires f ==> IsNumeral(p) && Value(p) == v
    ensures AllNumerals(if f then [p] else [])
    ensures Numbers(if f then [p] else []) == if f then [v] else []
  {
    if f {
      assert Numbers([p]) == [Value(p)] + Numbers([]);
    }
  }

  /** There is one digit run per truthy flag, and none holds a `-`. */
  lemma MagnitudesHaveNoDash(date: Date, year: Flag, month: Flag, day: Flag)
    ensures |Magnitudes(date, year, month, day)| == FlagCount(year, month, day)
    ensures forall p :: p in Magnitudes(date, year, month, day) ==> '-' !in p
  {
    DigitsHaveNoDash(NatToString(YearMagnitude(date)));
    DigitsHaveNoDash(MonthPart(date));
    DigitsHaveNoDash(DayPart(date));
  }

  /**
   * Joining selected strings whose first is a signed digit run gives the join
   * of the unsigned runs, after one more separator when the sign is there.
   */
  lemma SignedJoin(fy: bool, fm: bool, fd: bool, signed: bool, y: string, digits: string, m: string, d: string)
    requires signed ==> fy && y == "-" + digits
    requires fy && !signed ==> y == digits
    ensures Join(Select(fy, fm, fd, y, m, d), '-')
         == (if signed then "-" else "") + Join(Select(fy, fm, fd, digits, m, d), '-')
  {
    var ms, ds := if fm then [m] else [], if fd then [d] else [];
    if signed {
      assert Select(fy, fm, fd, y, m, d) == [['-'] + digits] + (ms + ds);
      assert Select(fy, fm, fd, digits, m, d) == [digits] + (ms + ds);
      JoinLeadingSeparator(digits, ms + ds, '-');
    } else if fy {
      assert Select(fy, fm, fd, y, m, d) == Select(fy, fm, fd, digits, m, d);
    }
  }

  /**
   * The output is the `-`-join of the digit runs, after one more `-` when a
   * negative year is requested.
   */
  lemma MachineFormatLayout(date: Date, year: Flag, month: Flag, day: Flag)
    ensures MachineFormat(date, year, month, day)
         == (if SignedYear(date, year) then "-" else "") + Join(Magnitudes(date, year, month, day), '-')
  {
    SignedJoin(Truthy(year), Truthy(month), Truthy(day), SignedYear(date, year),
      YearPart(date), NatToString(YearMagnitude(date)), MonthPart(date), DayPart(date));
  }

  /** How the output splits on `-`: an empty first piece for a negative year, then the digit runs. */
  lemma SplitMachineFormat(date: Date, year: Flag, month: Flag, day: Flag)
    requires FlagCount(year, month, day) >= 1
    ensures Split(MachineFormat(date, year, month, day), '-')
         == (if SignedYear(date, year) then [""] else []) + Magnitudes(date, year, month, day)
  {
    MachineFormatLayout(date, year, month, day);
    MagnitudesHaveNoDash(date, year, month, day);
    SplitSigned(SignedYear(date, year), Magnitudes(date, year, month, day));
  }

  /** Splitting a join of dash-free pieces, after an optional leading `-`, gives the pieces back. */
  lemma SplitSigned(signed: bool, pieces: seq<string>)
    requires pieces != []
    requires forall p :: p in pieces ==> '-' !in p
    ensures Split((if signed then "-" else "") + Join(pieces, '-'), '-') == (if signed then [""] else []) + pieces
  {
    var j := Join(pieces, '-');
    assert Split(j, '-') == pieces by {
      SplitJoin(pieces, '-');
    }
    if signed {
      assert Split("" + "-" + j, '-') == [""] + Split(j, '-') by {
        SplitAtFirstSeparator("", j, '-');
      }
      assert "" + "-" + j == "-" + j;
    } else {
      assert "" + j == j;
    }
  }

  /** Numerals hold no `-`. */
  lemma NumeralsHaveNoDash(pieces: seq<string>)
    requires AllNumerals(pieces)
    ensures forall p :: p in pieces ==> '-' !in p
  {
    forall p | p in pieces
      ensures '-' !in p
    {
      var i :| 0 <= i < |pieces| && pieces[i] == p;
      DigitsHaveNoDash(pieces[i]);
    }
  }

  /** Joined numerals read back as their numbers. */
  lemma ReadUnsigned(pieces: seq<string>, ns: seq<int>)
    requires pieces != [] && DecodeNumbers(pieces) == Some(ns)
    ensures ParseMachineFormat(Join(pieces, '-')) == Some(ns)
  {
    NumeralsHaveNoDash(pieces);
    SplitJoin(pieces, '-');
  }

  /** A `-` and then joined numerals read back with the first number negated. */
  lemma ReadSigned(digits: string, rest: seq<string>, yv: nat, vs: seq<int>)
    requires IsNumeral(digits) && Value(digits) == yv
    requires DecodeNumbers(rest) == Some(vs)
    ensures ParseMachineFormat("-" + Join([digits] + rest, '-')) == Some([-(yv as int)] + vs)
  {
    var mags := [digits] + rest;
    var s := "-" + Join(mags, '-');
    var ns: seq<int> := [yv] + vs;
    assert DecodeNumbers(mags) == Some(ns) by {
      DecodeOptional(true, digits, yv);
      NumbersAppend([digits], rest);
    }
    assert Split(s, '-') == [""] + mags by {
      NumeralsHaveNoDash(mags);
      SplitSigned(true, mags);
    }
    assert ([""] + mags)[1..] == mags;
    assert ns[1..] == vs;
  }

  /**
   * The round trip on plain strings: selected digit runs, joined by `-` and
   * preceded by a `-` when the year is negative, read back as the selected
   * numbers with the year's sign restored.
   */
  lemma ReadSelected(fy: bool, fm: bool, fd: bool, signed: bool, digits: string, m: string, d: string, yv: int, mv: int, dv: int)
    requires fy || fm || fd
    requires signed ==> fy
    requires fy ==> IsNumeral(digits) && Value(digits) == (if signed then -yv else yv)
    requires fm ==> IsNumeral(m) && Value(m) == mv
    requires fd ==> IsNumeral(d) && Value(d) == dv
    ensures ParseMachineFormat((if signed then "-" else "") + Join(Select(fy, fm, fd, digits, m, d), '-'))
         == Some(Select(fy, fm, fd, yv, mv, dv))
  {
    if signed {
      var rest := Select(false, fm, fd, digits, m, d);
      DecodeSelected(false, fm, fd, digits, m, d, yv, mv, dv);
      assert Select(fy, fm, fd, digits, m, d) == [digits] + rest;
      assert Select(fy, fm, fd, yv, mv, dv) == [yv] + Select(false, fm, fd, yv, mv, dv);
      ReadSigned(digits, rest, -yv, Select(false, fm, fd, yv, mv, dv));
    } else {
      DecodeSelected(fy, fm, fd, digits, m, d, yv, mv, dv);
      ReadUnsigned(Select(fy, fm, fd, digits, m, d), Select(fy, fm, fd, yv, mv, dv));
      assert "" + Join(Select(fy, fm, fd, digits, m, d), '-') == Join(Select(fy, fm, fd, digits, m, d), '-');
    }
  }

  /**
   * Round trip: reading the machine format back recovers the requested
   * fields in year, month, day order, a negative year included.
   */
  lemma MachineFormatRoundTrip(date: Date, year: Flag, month: Flag, day: Flag)
    ensures ParseMachineFormat(MachineFormat(date, year, month, day)) == Some(Fields(date, year, month, day))
  {
    MachineFormatLayout(date, year, month, day);
    if FlagCount(year, month, day) >= 1 {
      ReadRequested(date, year, month, day);
    }
  }

  /** The round trip once the output is spelled out as its digit runs. */
  lemma ReadRequested(date: Date, year: Flag, month: Flag, day: Flag)
    requires FlagCount(year, month, day) >= 1
    ensures ParseMachineFormat((if SignedYear(date, year) then "-" else "") + Join(Magnitudes(date, year, month, day), '-'))
         == Some(Fields(date, year, month, day))
  {
    ValueOfNatToString(YearMagnitude(date));
    ReadSelected(Truthy(year), Truthy(month), Truthy(day), SignedYear(date, year),
      NatToString(YearMagnitude(date)), MonthPart(date), DayPart(date), date.year, date.month + 1, date.day);
  }

  /**
   * The output splits on `-` into the requested parts' digit runs, and holds
   * one `-` fewer than there are parts, plus one for a negative year's sign.
   */
  lemma MachineFormatSeparators(date: Date, year: Flag, month: Flag, day: Flag)
    ensures var s := MachineFormat(date, year, month, day);
      && (FlagCount(year, month, day) >= 1 && !SignedYear(date, year) ==> Split(s, '-') == Parts(date, year, month, day))
      && (FlagCount(year, month, day) >= 1 && SignedYear(date, year) ==> Split(s, '-') == [""] + Magnitudes(date, year, month, day))
      && multiset(s)['-'] == if FlagCount(year, month, day) == 0 then 0
                             else if SignedYear(date, year) then FlagCount(year, month, day)
                             else FlagCount(year, month, day) - 1
  {
    var mags := Magnitudes(date, year, month, day);
    MachineFormatLayout(date, year, month, day);
    MagnitudesHaveNoDash(date, year, month, day);
    if |mags| >= 1 {
      SplitMachineFormat(date, year, month, day);
      JoinSeparatorCount(mags, '-');
      if SignedYear(date, year) {
        assert multiset("-" + Join(mags, '-')) == multiset("-") + multiset(Join(mags, '-'));
      } else {
        assert Truthy(year) ==> YearPart(date) == NatToString(YearMagnitude(date));
        assert Parts(date, year, month, day) == mags;
      }
    }
  }

  /** Leaving a flag out and passing `false` give the same output, for each of the three flags. */
  lemma AbsentFlagActsAsFalse(date: Date, year: Flag, month: Flag, day: Flag)
    ensures MachineFormat(date, None, month, day) == MachineFormat(date, Some(false), month, day)
    ensures MachineFormat(date, year, None, day) == MachineFormat(date, year, Some(false), day)
    ensures MachineFormat(date, year, month, None) == MachineFormat(date, year, month, Some(false))
  {
  }

  /**
   * A minus sign of a negative year looks like a separator: the year alone
   * already starts with a `-`.
   */
  lemma NegativeYearAddsDash(date: Date)
    requires date.year < 0
    ensures MachineFormat(date, Some(true), None, None)[0] == '-'
  {
    assert Parts(date, Some(true), None, None) == [YearPart(date)];
  }

  lemma JoinThree(y: string, m: string, d: string)
    ensures Join([y, m, d], '-') == y + "-" + (m + "-" + d)
  {
    assert [y, m, d][1..] == [m, d];
    assert [m, d][1..] == [d];
    assert Join([m, d], '-') == m + "-" + d;
  }

  /** A complete calendar date in the extended format of ISO 8601: `YYYY-MM-DD`. */
  predicate IsIsoCalendarDate(s: string) {
    && |s| == 10
    && s[4] == '-' && s[7] == '-'
    && AllDigits(s[..4]) && AllDigits(s[5..7]) && AllDigits(s[8..])
  }

  /** The machine format with all three parts, spelled out. */
  lemma FullFormatLayout(date: Date)
    ensures MachineFormat(date, Some(true), Some(true), Some(true))
         == YearPart(date) + "-" + (MonthPart(date) + "-" + DayPart(date))
  {
    var y, m, d := YearPart(date), MonthPart(date), DayPart(date);
    assert Parts(date, Some(true), Some(true), Some(true)) == [y, m, d];
    JoinThree(y, m, d);
  }

  /** For four-digit years the full machine format is an ISO 8601 calendar date. */
  lemma FullFormatIsIsoForFourDigitYears(date: Date)
    requires 1000 <= date.year <= 9999
    ensures IsIsoCalendarDate(MachineFormat(date, Some(true), Some(true), Some(true)))
  {
    var y, m, d := YearPart(date), MonthPart(date), DayPart(date);
    assert Pow10(3) == 1000 && Pow10(4) == 10000;
    NatToStringHasLength(date.year, 4);
    FullFormatLayout(date);
    IsoLayout(y, m, d);
  }

  lemma IsoLayout(y: string, m: string, d: string)
    requires |y| == 4 && |m| == 2 && |d| == 2
    requires AllDigits(y) && AllDigits(m) && AllDigits(d)
    ensures IsIsoCalendarDate(y + "-" + (m + "-" + d))
  {
    var s := y + "-" + (m + "-" + d);
    assert s[..4] == y;
    assert s[5..7] == m;
    assert s[8..] == d;
  }

  /** A three-digit year is not padded, so the full format is one character short of ISO 8601. */
  lemma ShortYearIsNotIso(date: Date)
    requires 100 <= date.year <= 999
    ensures |MachineFormat(date, Some(true), Some(true), Some(true))| == 9
    ensures !IsIsoCalendarDate(MachineFormat(date, Some(true), Some(true), Some(true)))
  {
    assert Pow10(2) == 100 && Pow10(3) == 1000;
    NatToStringHasLength(date.year, 3);
    FullFormatLayout(date);
  }

  /**
   * Two dates are on the same day exactly when their full machine formats
   * are the same string.
   */
  lemma IsSameDayIffSameFullFormat(a: Date, b: Date)
    ensures IsSameDay(Some(a), Some(b))
        <==> MachineFormat(a, Some(true), Some(true), Some(true)) == MachineFormat(b, Some(true), Some(true), Some(true))
  {
    if IsSameDay(Some(a), Some(b)) {
      SameDayHasSameFullFormat(a, b);
    } else {
      FullFormatDecodes(a);
      FullFormatDecodes(b);
    }
  }

  lemma SameDayHasSameFullFormat(a: Date, b: Date)
    requires IsSameDay(Some(a), Some(b))
    ensures MachineFormat(a, Some(true), Some(true), Some(true)) == MachineFormat(b, Some(true), Some(true), Some(true))
  {
    assert a.year == b.year && a.month == b.month && a.day == b.day;
    assert YearPart(a) == IntToString(a.year) == YearPart(b);
    assert MonthPart(a) == PadWithZero(a.month + 1, 2) == MonthPart(b);
    assert DayPart(a) == PadWithZero(a.day, 2) == DayPart(b);
    FullFormatLayout(a);
    FullFormatLayout(b);
  }

  /** The full format of any date reads back as year, month + 1, day. */
  lemma FullFormatDecodes(date: Date)
    ensures ParseMachineFormat(MachineFormat(date, Some(true), Some(true), Some(true)))
         == Some([date.year, date.month + 1, date.day])
  {
    MachineFormatRoundTrip(date, Some(true), Some(true), Some(true));
    assert Fields(date, Some(true), Some(true), Some(true)) == [date.year, date.month + 1, date.day];
  }

  const March5th2024 := Date(2024, 2, 5, Midnight)

  /** All three parts of 5 March 2024 give `2024-03-05`. */
  lemma FullFormatExample()
    ensures MachineFormat(March5th2024, Some(true), Some(true), Some(true)) == "2024-03-05"
  {
    MonthPartIsTwoDigits(March5th2024);
    DayPartIsTwoDigits(March5th2024);
    assert NatToString(2024) == "2024";
    assert Parts(March5th2024, Some(true), Some(true), Some(true)) == ["2024", "03", "05"];
  }

  /** The month alone of 5 March 2024 is `03`, with no separator. */
  lemma MonthOnlyExample()
    ensures MachineFormat(March5th2024, Some(false), Some(true), Some(false)) == "03"
  {
    MonthPartIsTwoDigits(March5th2024);
    assert Parts(March5th2024, Some(false), Some(true), Some(false)) == ["03"];
  }

  // ------------------------------------------------------------ getNextCompId

  /**
   * Issuing `a + b` ids is issuing `a` ids and then `b` more from where the
   * counter stopped.
   */
  lemma IssueComposes(c: Counter, a: nat, b: nat)
    ensures Issue(c, a + b).0 == Issue(c, a).0 + Issue(Issue(c, a).1, b).0
    ensures Issue(c, a + b).1 == Issue(Issue(c, a).1, b).1
  {
  }

  /** Ids issued by successive calls are strictly increasing, so none repeats. */
  lemma IssuedIdsAreDistinct(c: Counter, k: nat)
    ensures forall i, j :: 0 <= i < j < k ==> Issue(c, k).0[i] < Issue(c, k).0[j]
    ensures forall i :: 0 <= i < k ==> Issue(c, k).0[i] < Issue(c, k).1.compId
  {
  }

  /** From a fresh counter the first three calls return 0, 1 and 2. */
  lemma FirstThreeIds()
    ensures Issue(FreshCounter, 3).0 == [0, 1, 2]
    ensures Issue(FreshCounter, 3).1 == Counter(3)
  {
  }
}
