/** Wall-clock time: `mktime` against the Gregorian calendar counted one day at a time,
    and the normalisation of second/nanosecond pairs. */
module Calendar {
  import opened Bits
  import opened Machine

  const NSEC_PER_SEC := 1_000_000_000
  const HZ := 1000

  /** `mktime`, with every operation on 32-bit words. */
  function Mktime(year: nat, mon: nat, day: nat, hour: nat, min: nat, sec: nat): nat
  {
    var m0 := U32(mon - 2);
    var early := m0 == 0 || m0 >= WORD / 2;
    var m := if early then U32(m0 + 12) else m0;
    var y := if early then U32(year - 1) else year;
    var months := U32(367 * m) / 12;
    var days := U32(U32(U32(y / 4 - y / 100 + y / 400 + months + day) + U32(y * 365)) - 719499);
    U32(U32(U32(U32(days * 24 + hour) * 60) + min) * 60 + sec)
  }

  // ----- the calendar, one day at a time -----

  datatype Date = Date(year: nat, mon: nat, day: nat)

  predicate LeapYear(y: nat)
  {
    y % 4 == 0 && (y % 100 != 0 || y % 400 == 0)
  }

  function DaysInMonth(y: nat, m: nat): nat
  {
    if m == 2 then (if LeapYear(y) then 29 else 28)
    else if m == 4 || m == 6 || m == 9 || m == 11 then 30
    else 31
  }

  predicate ValidDate(d: Date)
  {
    1 <= d.mon <= 12 && 1 <= d.day <= DaysInMonth(d.year, d.mon)
  }

  function NextDay(d: Date): (n: Date)
    requires ValidDate(d)
    ensures ValidDate(n) && n.year >= d.year
  {
    if d.day < DaysInMonth(d.year, d.mon) then d.(day := d.day + 1)
    else if d.mon < 12 then Date(d.year, d.mon + 1, 1)
    else Date(d.year + 1, 1, 1)
  }

  const EPOCH := Date(1970, 1, 1)

  /** The n-th day after 1 January 1970. */
  function DayAt(n: nat): (d: Date)
    ensures ValidDate(d) && d.year >= 1970
  {
    if n == 0 then EPOCH else NextDay(DayAt(n - 1))
  }

  /** Days in the y years before year y, and the days in its months before month m, when
      years start in March. */
  function YearDays(y: int): int
  {
    y / 4 - y / 100 + y / 400 + y * 365
  }

  function MonthDays(m: int): int
  {
    367 * m / 12
  }

  /** The day count in `mktime`, over unbounded integers. */
  function DayFormula(d: Date): int
  {
    if d.mon <= 2 then YearDays(d.year - 1) + MonthDays(d.mon + 10) + d.day - 719499
    else YearDays(d.year) + MonthDays(d.mon - 2) + d.day - 719499
  }

  lemma FormulaStep(d: Date)
    requires ValidDate(d) && d.year >= 1
    ensures DayFormula(NextDay(d)) == DayFormula(d) + 1
  {
    hide LeapYear, YearDays, MonthDays;
    YearStep(d.year);
    MonthStep(d.year, d.mon);
  }

  /** The months of a year that starts in March, and the day February may gain. */
  lemma MonthStep(y: nat, mon: nat)
    requires 1 <= mon <= 12
    ensures 3 <= mon ==> MonthDays(mon - 1) - MonthDays(mon - 2) == DaysInMonth(y, mon)
    ensures mon == 1 ==> MonthDays(12) - MonthDays(11) == DaysInMonth(y, mon)
    ensures mon == 2 ==> MonthDays(1) + 365 - MonthDays(12) + (if LeapYear(y) then 1 else 0) == DaysInMonth(y, mon)
  {
  }

  lemma YearStep(y: nat)
    requires y >= 1
    ensures YearDays(y) == YearDays(y - 1) + 365 + (if LeapYear(y) then 1 else 0)
  {
    QuotientStep(y, 4);
    QuotientStep(y, 100);
    QuotientStep(y, 400);
    if y % 400 == 0 {
      DivUnique(y, 100, 4 * (y / 400), 0);
    }
    if y % 100 == 0 {
      DivUnique(y, 4, 25 * (y / 100), 0);
    }
  }

  lemma QuotientStep(y: nat, a: nat)
    requires y >= 1 && a > 0
    ensures y / a == (y - 1) / a + (if y % a == 0 then 1 else 0)
  {
    var q, r := y / a, y % a;
    if r == 0 {
      MulAdd(a, q, 1);
      DivUnique(y - 1, a, q - 1, a - 1);
    } else {
      DivUnique(y - 1, a, q, r - 1);
    }
  }

  lemma EpochIsDayZero()
    ensures DayFormula(EPOCH) == 0
  {
  }

  /** The closed formula counts days: it takes the n-th day to n, ... */
  lemma {:induction false} FormulaCounts(n: nat)
    ensures DayFormula(DayAt(n)) == n
  {
    hide NextDay, DayFormula, ValidDate;
    if n == 0 {
      EpochIsDayZero();
    } else {
      FormulaCounts(n - 1);
      FormulaStep(DayAt(n - 1));
    }
  }

  function PrevDay(d: Date): (p: Date)
    requires ValidDate(d) && d.year >= 1970 && d != EPOCH
    ensures ValidDate(p) && p.year >= 1970 && NextDay(p) == d
  {
    if d.day > 1 then d.(day := d.day - 1)
    else if d.mon > 1 then Date(d.year, d.mon - 1, DaysInMonth(d.year, d.mon - 1))
    else Date(d.year - 1, 12, 31)
  }

  /** ... and every date from 1970 on is the day its count says. */
  lemma {:induction false} FormulaInverts(d: Date)
    requires ValidDate(d) && d.year >= 1970
    ensures DayFormula(d) >= 0 && DayAt(DayFormula(d)) == d
    decreases d.year, d.mon, d.day
  {
    if d == EPOCH {
    } else {
      var p := PrevDay(d);
      FormulaInverts(p);
      FormulaStep(p);
    }
  }

  // ----- mktime -----

  /** Seconds since the epoch at a time of day on a date, by counting days. */
  ghost predicate SecondsAt(d: Date, hour: nat, min: nat, sec: nat, s: nat)
  {
    exists n: nat :: DayAt(n) == d && s == ((n * 24 + hour) * 60 + min) * 60 + sec
  }

  lemma U32Add(a: int, b: int)
    ensures U32(U32(a) + b) == U32(a + b)
  {
  }

  lemma U32Mul(a: int, k: nat)
    ensures U32(U32(a) * k) == U32(a * k)
  {
    var q := a / WORD;
    assert a == WORD * q + U32(a);
    assert a * k == WORD * (q * k) + U32(a) * k;
    ModShift(U32(a) * k, q * k);
  }

  lemma ModShift(x: int, q: int)
    ensures U32(WORD * q + x) == U32(x)
  {
  }

  /** Reducing to a word after every step of a * k + b is reducing once at the end. */
  lemma U32Scale(a: int, k: nat, b: int)
    ensures U32(U32(U32(a) * k) + b) == U32(a * k + b) == U32(U32(a) * k + b)
  {
    U32Mul(a, k);
    U32Add(a * k, b);
    U32Add(U32(a) * k, b);
  }

  lemma WordChain(n: int, hour: nat, min: nat, sec: nat)
    ensures U32(U32(U32(U32(U32(n) * 24 + hour) * 60) + min) * 60 + sec)
            == U32(((n * 24 + hour) * 60 + min) * 60 + sec)
  {
    U32Scale(n, 24, hour);
    U32Scale(n * 24 + hour, 60, min);
    U32Scale((n * 24 + hour) * 60 + min, 60, sec);
  }

  lemma WordDays(a: int, b: int)
    ensures U32(U32(U32(a) + U32(b)) - 719499) == U32(a + b - 719499)
  {
    U32Add(a, U32(b));
    U32Add(b, a);
    U32Add(a + b, -719499);
  }

  lemma MktimeDays(d: Date, hour: nat, min: nat, sec: nat)
    requires ValidDate(d) && 1970 <= d.year < WORD && hour < WORD && min < WORD && sec < WORD
    ensures Mktime(d.year, d.mon, d.day, hour, min, sec)
            == U32(((DayFormula(d) * 24 + hour) * 60 + min) * 60 + sec)
  {
    hide U32;
    var m := if d.mon <= 2 then d.mon + 10 else d.mon - 2;
    var y := if d.mon <= 2 then d.year - 1 else d.year;
    MonthWord(d.mon);
    SmallWord(d.year - 1);
    SmallWord(367 * m);
    WordDays(y / 4 - y / 100 + y / 400 + 367 * m / 12 + d.day, y * 365);
    WordChain(DayFormula(d), hour, min, sec);
  }

  lemma SmallWord(x: int)
    requires 0 <= x < WORD
    ensures U32(x) == x
  {
  }

  /** Moving February to the end of the year, on 32-bit words. */
  lemma MonthWord(mon: nat)
    requires 1 <= mon <= 12
    ensures var m0 := U32(mon - 2);
            && (m0 == 0 || m0 >= WORD / 2 <==> mon <= 2)
            && (mon <= 2 ==> U32(m0 + 12) == mon + 10)
            && (mon > 2 ==> m0 == mon - 2)
  {
  }

  /** `mktime` is the number of seconds since the epoch on the Gregorian calendar, modulo 2^32. */
  lemma MktimeCounts(d: Date, hour: nat, min: nat, sec: nat)
    requires ValidDate(d) && 1970 <= d.year < WORD && hour < 24 && min < 60 && sec < 60
    ensures DayFormula(d) >= 0 && DayAt(DayFormula(d)) == d
    ensures SecondsAt(d, hour, min, sec, ((DayFormula(d) * 24 + hour) * 60 + min) * 60 + sec)
    ensures forall s: nat :: SecondsAt(d, hour, min, sec, s) ==>
              Mktime(d.year, d.mon, d.day, hour, min, sec) == s % WORD
  {
    MktimeDays(d, hour, min, sec);
    FormulaInverts(d);
    forall s: nat | SecondsAt(d, hour, min, sec, s)
      ensures Mktime(d.year, d.mon, d.day, hour, min, sec) == s % WORD
    {
      var n: nat :| DayAt(n) == d && s == ((n * 24 + hour) * 60 + min) * 60 + sec;
      FormulaCounts(n);
    }
  }

  /** The next day at the same time is 86400 seconds later. */
  lemma MktimeNextDay(d: Date, hour: nat, min: nat, sec: nat)
    requires ValidDate(d) && 1970 <= d.year < WORD - 1 && hour < 24 && min < 60 && sec < 60
    ensures var n := NextDay(d);
            Mktime(n.year, n.mon, n.day, hour, min, sec)
            == (Mktime(d.year, d.mon, d.day, hour, min, sec) + 86400) % WORD
  {
    var n := NextDay(d);
    MktimeDays(d, hour, min, sec);
    MktimeDays(n, hour, min, sec);
    FormulaStep(d);
    U32Add(((DayFormula(d) * 24 + hour) * 60 + min) * 60 + sec, 86400);
  }

  predicate Earlier(a: Date, b: Date)
  {
    a.year < b.year || (a.year == b.year && (a.mon < b.mon || (a.mon == b.mon && a.day < b.day)))
  }

  lemma {:induction false} DayAtMonotone(j: nat, k: nat)
    requires j < k
    ensures Earlier(DayAt(j), DayAt(k))
    decreases k
  {
    if j == k - 1 {
    } else {
      DayAtMonotone(j, k - 1);
    }
  }

  /** Day counts order dates as the calendar does. */
  lemma CountsOrderDates(a: Date, b: Date)
    requires ValidDate(a) && ValidDate(b) && a.year >= 1970 && b.year >= 1970
    ensures Earlier(a, b) <==> DayFormula(a) < DayFormula(b)
  {
    FormulaInverts(a);
    FormulaInverts(b);
    if DayFormula(a) < DayFormula(b) {
      DayAtMonotone(DayFormula(a), DayFormula(b));
    } else if DayFormula(b) < DayFormula(a) {
      DayAtMonotone(DayFormula(b), DayFormula(a));
    }
  }

  /** Seconds since midnight. */
  function TimeOfDay(hour: nat, min: nat, sec: nat): nat
  {
    (hour * 60 + min) * 60 + sec
  }

  /** 06:28:15 on 7 February 2106 is the last second for which `mktime` is the true count. */
  lemma MktimeExactUntil(d: Date, hour: nat, min: nat, sec: nat)
    requires ValidDate(d) && 1970 <= d.year < WORD && hour < 24 && min < 60 && sec < 60
    ensures Mktime(d.year, d.mon, d.day, hour, min, sec) == ((DayFormula(d) * 24 + hour) * 60 + min) * 60 + sec
            <==> Earlier(d, Date(2106, 2, 7)) || (d == Date(2106, 2, 7) && TimeOfDay(hour, min, sec) <= 23295)
  {
    hide U32, Mktime, DayFormula, Earlier, DayAt;
    var last := Date(2106, 2, 7);
    MktimeDays(d, hour, min, sec);
    FormulaInverts(d);
    FormulaInverts(last);
    CountsOrderDates(d, last);
    LastDayCount();
    WordExact(DayFormula(d), hour, min, sec);
  }

  lemma LastDayCount()
    ensures DayFormula(Date(2106, 2, 7)) == 49710
  {
  }

  lemma WordExact(n: nat, hour: nat, min: nat, sec: nat)
    requires hour < 24 && min < 60 && sec < 60
    ensures U32(((n * 24 + hour) * 60 + min) * 60 + sec) == ((n * 24 + hour) * 60 + min) * 60 + sec
            <==> n < 49710 || (n == 49710 && TimeOfDay(hour, min, sec) <= 23295)
  {
  }

  // ----- timespec -----

  class Timespec {
    var sec: int
    var nsec: int

    constructor ()
      ensures sec == 0 && nsec == 0
    {
      sec, nsec := 0, 0;
    }

    function Nanoseconds(): int
      reads this
    {
      sec * NSEC_PER_SEC + nsec
    }
  }

  /** Both loops stop, the instant is preserved, and the nanoseconds end in 0..10^9. They end
      at 10^9 itself for exactly the positive multiples of it, where the strict test stops early. */
  method SetNormalizedTimespec(ts: Timespec, sec0: int, nsec0: int)
    modifies ts
    ensures ts.Nanoseconds() == sec0 * NSEC_PER_SEC + nsec0
    ensures 0 <= ts.nsec <= NSEC_PER_SEC
    ensures ts.nsec == NSEC_PER_SEC <==> nsec0 > 0 && nsec0 % NSEC_PER_SEC == 0
    ensures -0x8000_0000 <= nsec0 < 0x8000_0000 ==> sec0 - 3 <= ts.sec <= sec0 + 2
  {
    var sec, nsec := sec0, nsec0;
    while nsec > NSEC_PER_SEC
      invariant sec * NSEC_PER_SEC + nsec == sec0 * NSEC_PER_SEC + nsec0
      invariant nsec0 > 0 ==> nsec > 0
      invariant nsec0 <= 0 ==> nsec == nsec0
      invariant sec >= sec0
    {
      nsec := nsec - NSEC_PER_SEC;
      sec := sec + 1;
    }
    ghost var carried := sec;
    while nsec < 0
      invariant sec * NSEC_PER_SEC + nsec == sec0 * NSEC_PER_SEC + nsec0
      invariant nsec <= NSEC_PER_SEC && (nsec0 > 0 ==> nsec > 0)
      invariant nsec == NSEC_PER_SEC ==> nsec0 > 0
      invariant nsec0 <= 0 && nsec != nsec0 ==> nsec < NSEC_PER_SEC
      invariant sec <= carried
    {
      nsec := nsec + NSEC_PER_SEC;
      sec := sec - 1;
    }
    ts.sec := sec;
    ts.nsec := nsec;
  }

  /** What `time_init` leaves: the wall clock and its offset to monotonic time cancel out. */
  method TimeInit(cmosTime: int, xtime: Timespec, wallToMonotonic: Timespec)
    requires xtime != wallToMonotonic
    modifies xtime, wallToMonotonic
    ensures xtime.Nanoseconds() + wallToMonotonic.Nanoseconds() == 0
    ensures xtime.sec == cmosTime && xtime.nsec == 296_000_000
    ensures wallToMonotonic.sec == -cmosTime - 1 && wallToMonotonic.nsec == 704_000_000
  {
    var initialJiffies := U32(-300 * HZ);
    StartOfJiffies();
    hide U32;
    xtime.sec := cmosTime;
    xtime.nsec := (initialJiffies % HZ) * (NSEC_PER_SEC / HZ);
    SetNormalizedTimespec(wallToMonotonic, -xtime.sec, -xtime.nsec);
  }

  lemma StartOfJiffies()
    ensures U32(-300 * HZ) % HZ == 296 && NSEC_PER_SEC / HZ == 1_000_000
  {
    assert U32(-300_000) == WORD - 300_000;
  }
}
