/**
 * The calendar helper functions of `calendarUtil.ts`: decade bucketing,
 * same-day comparison, zero padding, the machine-readable date format and
 * the component id counter.
 */
module CalendarUtil {

  import opened Optional
  import opened Decimal
  import opened Text

  /** A zero-based month, as `Date.prototype.getMonth` returns it. */
  type Month0 = m: int | 0 <= m < 12

  /** A day of the month, as `Date.prototype.getDate` returns it. */
  type DayOfMonth = d: int | 1 <= d <= 31 witness 1

  /** The time-of-day fields of a date; none of the helpers here look at them. */
  datatype TimeOfDay = TimeOfDay(hours: nat, minutes: nat, seconds: nat, millis: nat)

  /** A date with its local-time fields already extracted. */
  datatype Date = Date(year: int, month: Month0, day: DayOfMonth, time: TimeOfDay)

  const Midnight := TimeOfDay(0, 0, 0, 0)

  /** The same calendar day with its time of day cleared. */
  function StartOfDay(d: Date): Date {
    d.(time := Midnight)
  }

  // ---------------------------------------------------------------- getDecade

  /** JavaScript's integer quotient `Math.trunc(a / b)`: rounds toward zero. */
  function TruncatedQuot(a: int, b: int): int
    requires b > 0
  {
    if a >= 0 then a / b else -((-a) / b)
  }

  /**
   * JavaScript's `a % b`: the remainder left by the quotient that truncates
   * toward zero, so it takes the sign of the dividend (unlike Dafny's
   * Euclidean `%`).
   */
  function TruncatedRem(a: int, b: int): (r: int)
    requires b > 0
    ensures a == b * TruncatedQuot(a, b) + r
    ensures -b < r < b
    ensures a >= 0 ==> r >= 0
    ensures a < 0 ==> r <= 0
  {
    if a >= 0 then a % b else -((-a) % b)
  }

  /**
   * `getDecade`: the year with its last digit removed, i.e. rounded toward
   * zero to a multiple of ten (down for the years of the common era).
   */
  function GetDecade(date: Date): (decade: int)
    ensures decade % 10 == 0
    ensures date.year >= 0 ==> 0 <= date.year - decade < 10
    ensures date.year < 0 ==> 0 <= decade - date.year < 10
  {
    date.year - TruncatedRem(date.year, 10)
  }

  // ---------------------------------------------------------------- isSameDay

  /**
   * `isSameDay`: false when either date is absent, otherwise whether the two
   * dates fall on the same year, month and day.
   */
  function IsSameDay(date1: Option<Date>, date2: Option<Date>): (same: bool)
    ensures date1.None? || date2.None? ==> !same
  {
    match (date1, date2)
    case (Some(d1), Some(d2)) =>
      d1.year == d2.year && d1.month == d2.month && d1.day == d2.day
    case _ => false
  }

  // ------------------------------------------------------------- padWithZero

  /** `padWithZero`: `String(num).padStart(targetLength, '0')`. */
  function PadWithZero(num: nat, targetLength: int): (r: string)
    ensures |r| == if targetLength <= |NatToString(num)| then |NatToString(num)| else targetLength
    ensures r[|r| - |NatToString(num)|..] == NatToString(num)
    ensures forall i :: 0 <= i < |r| - |NatToString(num)| ==> r[i] == '0'
    ensures AllDigits(r) && Value(r) == num
  {
    var s := NatToString(num);
    var r := PadStart(s, targetLength, '0');
    assert r == Repeat('0', |r| - |s|) + s;
    ValueOfNatToString(num);
    ValueIgnoresLeadingZeros(|r| - |s|, s);
    r
  }

  // ----------------------------------------------------------- machineFormat

  /** An optional boolean argument: absent (undefined) is falsy. */
  type Flag = Option<bool>

  /** JavaScript truthiness of a `boolean | undefined` value. */
  function Truthy(f: Flag): (t: bool)
    ensures t <==> f.Some? && f.value
  {
    f == Some(true)
  }

  /** The year part: the year's decimal string, not padded. */
  function YearPart(date: Date): (s: string)
    ensures s != [] && (s[0] == '-' <==> date.year < 0)
    ensures date.year >= 0 ==> AllDigits(s) && Value(s) == date.year
    ensures date.year < 0 ==> AllDigits(s[1..]) && Value(s[1..]) == -date.year
    ensures date.year >= 0 ==> (s[0] == '0' ==> s == "0")
    ensures date.year < 0 ==> |s| >= 2 && s[1] != '0'
  {
    IntToString(date.year)
  }

  /** The month part: the one-based month padded to two digits. */
  function MonthPart(date: Date): (s: string)
    ensures |s| == 2 && AllDigits(s) && Value(s) == date.month + 1
  {
    assert Pow10(2) == 100;
    NatToStringAtMost(date.month + 1, 2);
    PadWithZero(date.month + 1, 2)
  }

  /** The day part: the day of the month padded to two digits. */
  function DayPart(date: Date): (s: string)
    ensures |s| == 2 && AllDigits(s) && Value(s) == date.day
  {
    assert Pow10(2) == 100;
    NatToStringAtMost(date.day, 2);
    PadWithZero(date.day, 2)
  }

  /** The `parts` array of `machineFormat`: the requested parts, year first, day last. */
  function Parts(date: Date, year: Flag, month: Flag, day: Flag): (parts: seq<string>)
    ensures parts == [] <==> !Truthy(year) && !Truthy(month) && !Truthy(day)
    ensures forall i :: 0 <= i < |parts| ==> parts[i] != []
  {
    Select(Truthy(year), Truthy(month), Truthy(day), YearPart(date), MonthPart(date), DayPart(date))
  }

  /** The entries whose flag is set, kept in year, month, day order. */
  function Select<T>(fy: bool, fm: bool, fd: bool, y: T, m: T, d: T): (r: seq<T>)
    ensures |r| == (if fy then 1 else 0) + (if fm then 1 else 0) + (if fd then 1 else 0)
    ensures forall i :: 0 <= i < |r| ==> r[i] == y || r[i] == m || r[i] == d
    ensures fy ==> r[0] == y
  {
    (if fy then [y] else []) + (if fm then [m] else []) + (if fd then [d] else [])
  }

  /**
   * `machineFormat`: the requested parts joined by `-`. The result is empty
   * exactly when no part is requested.
   */
  function MachineFormat(date: Date, year: Flag, month: Flag, day: Flag): (s: string)
    ensures s == [] <==> !Truthy(year) && !Truthy(month) && !Truthy(day)
  {
    var parts := Parts(date, year, month, day);
    JoinOfNonEmptyParts(parts, '-');
    Join(parts, '-')
  }

  // ------------------------------------------------------------ getNextCompId

  /** The module-level `compId` variable: the next id to hand out. */
  datatype Counter = Counter(compId: nat)

  const FreshCounter := Counter(0)

  /** One `getNextCompId` call: returns the current id and advances the counter. */
  function NextCompId(c: Counter): (step: (nat, Counter))
    ensures step.0 == c.compId && step.1.compId == step.0 + 1
  {
    (c.compId, Counter(c.compId + 1))
  }

  /**
   * The ids returned by `k` successive `getNextCompId` calls, and the counter
   * afterwards: consecutive, strictly increasing, all below the final counter.
   */
  function Issue(c: Counter, k: nat): (r: (seq<nat>, Counter))
    ensures |r.0| == k
    ensures r.1.compId == c.compId + k
    ensures forall i :: 0 <= i < k ==> r.0[i] == c.compId + i
    decreases k
  {
    if k == 0 then ([], c)
    else
      var (id, next) := NextCompId(c);
      var (rest, final) := Issue(next, k - 1);
      ([id] + rest, final)
  }

  /** The counter as the mutable module state the source keeps it in. */
  class CompIdSource {
    var counter: Counter

    /** The module is loaded with `compId` at 0. */
    constructor Init()
      ensures counter == FreshCounter && counter.compId == 0
    {
      counter := FreshCounter;
    }

    /** `getNextCompId`: post-increment of the counter. */
    method GetNextCompId() returns (id: nat)
      modifies this
      ensures id == old(counter).compId
      ensures counter.compId == old(counter).compId + 1
    {
      var step := NextCompId(counter);
      id := step.0;
      counter := step.1;
    }

    /** `k` successive `getNextCompId` calls, collecting the ids they return. */
    method GetNextCompIds(k: nat) returns (ids: seq<nat>)
      modifies this
      ensures ids == Issue(old(counter), k).0
      ensures counter == Issue(old(counter), k).1
    {
      ids := [];
      var i := 0;
      while i < k
        invariant 0 <= i <= k
        invariant ids == Issue(old(counter), i).0
        invariant counter == Issue(old(counter), i).1
      {
        var id := GetNextCompId();
        ids := ids + [id];
        i := i + 1;
      }
    }
  }
}
