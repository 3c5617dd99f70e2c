/**
  Dates as YYYY-MM-DD strings in a time zone (packages/shared/src/moscow-calendar.ts).

  A zone is a constant offset from UTC in milliseconds, an instant is a time value or None for
  an invalid Date, and `now` is a parameter.
 */
module ZonedCalendar {
  import opened Prelude
  import opened Decimal
  import opened Calendar

  // ----- Reading and writing dates -----

  function Split(s: string, sep: char): (pieces: seq<string>)
    ensures |pieces| >= 1
  {
    if s == [] then [[]]
    else
      var rest := Split(s[1..], sep);
      if s[0] == sep then [[]] + rest else [[s[0]] + rest[0]] + rest[1..]
  }

  /** Component `i` of a date string as a number; 0 when it is missing or not a numeral. */
  function Part(iso: string, i: nat): nat {
    var parts := Split(iso, '-');
    if i < |parts| && AllDigits(parts[i]) then Value(parts[i]) else 0
  }

  function TimeClip(t: int): Option<int> {
    if -MAX_TIME <= t <= MAX_TIME then Some(t) else None
  }

  /** Noon UTC of a date, as Date.UTC gives it: years 0 to 99 mean 1900 to 1999. */
  function NoonUTC(year: int, month: int, date: int): Option<int> {
    var y := if 0 <= year <= 99 then 1900 + year else year;
    TimeClip(MakeDay(y, month, date) * MS_PER_DAY + NOON)
  }

  function LocalDay(t: int, zone: int): int {
    (t + zone) / MS_PER_DAY
  }

  /** The date as the Canadian locale prints it: the year of its era, without padding. */
  function Format(day: int): (iso: string)
    ensures iso != ""
  {
    var c := CivilFromDay(day);
    Print(if c.year >= 1 then c.year else 1 - c.year) + "-" + Print2(c.month) + "-" + Print2(c.day)
  }

  function DateToISO(instant: Option<int>, zone: int): string {
    if instant.None? then "" else Format(LocalDay(instant.value, zone))
  }

  function GetTodayISO(zone: int, now: Option<int>): string {
    DateToISO(now, zone)
  }

  function GetTomorrowISO(zone: int, now: Option<int>): string {
    DateToISO(if now.None? then None else TimeClip(now.value + MS_PER_DAY), zone)
  }

  function AddCalendarDaysISO(iso: string, delta: int, zone: int): string {
    var y, m, d := Part(iso, 0), Part(iso, 1), Part(iso, 2);
    if y == 0 || m == 0 || d == 0 then iso
    else DateToISO(NoonUTC(y, m - 1, d + delta), zone)
  }

  /** The weekday, Sunday being 0; None where formatting an invalid Date throws. */
  function GetWeekdaySun0(iso: string, zone: int): Option<int> {
    var y, m, d := Part(iso, 0), Part(iso, 1), Part(iso, 2);
    if y == 0 || m == 0 || d == 0 then Some(0)
    else
      var noon := NoonUTC(y, m - 1, d);
      if noon.None? then None else Some(WeekDay(LocalDay(noon.value, zone)))
  }

  /** The next Saturday and Sunday; None where the weekday of today throws. */
  function GetNextWeekendISO(zone: int, now: Option<int>): Option<(string, string)> {
    var iso := GetTodayISO(zone, now);
    var dow := GetWeekdaySun0(iso, zone);
    if dow.None? then None
    else
      var daysToSat := if dow.value == 6 then 0 else if dow.value == 0 then 6 else 6 - dow.value;
      var sat := AddCalendarDaysISO(iso, daysToSat, zone);
      Some((sat, AddCalendarDaysISO(sat, 1, zone)))
  }

  // ----- Printed dates read back -----

  /** Dates of the year 1 onwards: the printed date carries no era, so earlier years print alike. */
  predicate CommonEra(day: int) {
    CivilFromDay(day).year >= 1
  }

  lemma {:induction false} SplitPiece(piece: string, rest: string, sep: char)
    requires sep !in piece
    ensures Split(piece, sep) == [piece]
    ensures Split(piece + [sep] + rest, sep) == [piece] + Split(rest, sep)
  {
    var s := piece + [sep] + rest;
    if piece == [] {
      assert s[1..] == rest;
    } else {
      SplitPiece(piece[1..], rest, sep);
      assert s[1..] == piece[1..] + [sep] + rest;
      assert [piece[0]] + piece[1..] == piece;
    }
  }

  lemma NoDash(s: string)
    requires AllDigits(s)
    ensures '-' !in s
  {
  }

  /** Parsing a printed date gives its year, month and day back. */
  lemma PartsOfFormat(day: int)
    requires CommonEra(day)
    ensures var c := CivilFromDay(day);
            Part(Format(day), 0) == c.year && Part(Format(day), 1) == c.month && Part(Format(day), 2) == c.day
  {
    hide CivilFromDay, Print, Print2;
    var c := CivilFromDay(day);
    var y, m, d := Print(c.year), Print2(c.month), Print2(c.day);
    NoDash(y);
    NoDash(m);
    NoDash(d);
    assert Format(day) == y + ['-'] + (m + ['-'] + d);
    SplitPiece(y, m + ['-'] + d, '-');
    SplitPiece(m, d, '-');
    SplitPiece(d, [], '-');
    assert Split(Format(day), '-') == [y, m, d];
    ValueOfPrint(c.year);
    ValueOfPrint2(c.month);
    ValueOfPrint2(c.day);
  }

  lemma FormatInjective(a: int, b: int)
    requires CommonEra(a) && CommonEra(b)
    requires Format(a) == Format(b)
    ensures a == b
  {
    hide Format;
    PartsOfFormat(a);
    PartsOfFormat(b);
    assert CivilFromDay(a) == CivilFromDay(b);
    assert DayOf(CivilFromDay(a)) == a && DayOf(CivilFromDay(b)) == b;
  }

  // ----- Day arithmetic on printed dates -----

  /** Noon UTC of the day is a time value a Date can hold. */
  predicate Representable(day: int) {
    -MAX_TIME <= day * MS_PER_DAY + NOON <= MAX_TIME
  }

  /** Dates that `Date.UTC` reads back: years 0 to 99 are taken for 1900 to 1999. */
  predicate Modern(day: int) {
    CivilFromDay(day).year >= 100
  }

  /** The date that `Date.UTC` takes a printed date for. */
  function ReadAs(c: Civil): Civil {
    if c.year < 100 then Civil(1900 + c.year, c.month, c.day) else c
  }

  function ReadDay(day: int): int {
    DayOf(ReadAs(CivilFromDay(day)))
  }

  /** Noon UTC falls on the same calendar day in this zone. */
  predicate NoonKeepsDay(zone: int) {
    -NOON <= zone < NOON
  }

  /** How many days noon UTC moves in the zone. */
  function Drift(zone: int): int {
    (NOON + zone) / MS_PER_DAY
  }

  lemma DriftOfNoon(day: int, zone: int)
    ensures LocalDay(day * MS_PER_DAY + NOON, zone) == day + Drift(zone)
    ensures Drift(zone) == 0 <==> NoonKeepsDay(zone)
    ensures -MS_PER_DAY <= zone <= MS_PER_DAY ==> -1 <= Drift(zone) <= 1
  {
  }

  lemma NoonOfPrinted(day: int, delta: int)
    requires CommonEra(day)
    ensures var c := CivilFromDay(day);
            NoonUTC(c.year, c.month - 1, c.day + delta) == TimeClip((ReadDay(day) + delta) * MS_PER_DAY + NOON)
  {
    hide CivilFromDay, MakeDay, DayOf;
    var c := CivilFromDay(day);
    var read := ReadAs(c);
    assert MakeDay(read.year, c.month - 1, c.day + delta) == DayOf(read) + delta by {
      MakeDayOfCivil(read, delta);
    }
  }

  /** What `addCalendarDaysISO` computes on a printed date, in every zone. */
  lemma AddToPrinted(day: int, delta: int, zone: int)
    requires CommonEra(day)
    ensures AddCalendarDaysISO(Format(day), delta, zone)
         == if Representable(ReadDay(day) + delta) then Format(ReadDay(day) + delta + Drift(zone)) else ""
  {
    hide CivilFromDay, Format, NoonUTC, Part, Drift, LocalDay, ReadDay;
    PartsOfFormat(day);
    NoonOfPrinted(day, delta);
    DriftOfNoon(ReadDay(day) + delta, zone);
  }

  lemma AddInZone(day: int, delta: int, zone: int)
    requires NoonKeepsDay(zone) && CommonEra(day)
    ensures AddCalendarDaysISO(Format(day), delta, zone)
         == if Representable(ReadDay(day) + delta) then Format(ReadDay(day) + delta) else ""
  {
    hide CivilFromDay, Format, AddCalendarDaysISO, CommonEra, Representable, ReadDay;
    DriftOfNoon(day, zone);
    AddToPrinted(day, delta, zone);
  }

  lemma AddToEmpty(delta: int, zone: int)
    ensures AddCalendarDaysISO("", delta, zone) == ""
  {
    assert Part("", 0) == 0;
  }

  lemma YearsFollowDays(a: int, b: int)
    requires a <= b
    ensures CivilFromDay(a).year <= CivilFromDay(b).year
  {
    hide CivilFromDay, DayFromYear, DayOf;
    var c, n := CivilFromDay(a), CivilFromDay(b);
    DayBounds(c);
    DayBounds(n);
    if n.year < c.year {
      YearsIncrease(n.year + 1, c.year);
    }
  }

  lemma LaterIsCommonEra(day: int, later: int)
    requires CommonEra(day) && day <= later
    ensures CommonEra(later)
  {
    hide CivilFromDay;
    YearsFollowDays(day, later);
  }

  lemma ReadAsValid(c: Civil)
    requires c.Valid() && c.year >= 1
    ensures ReadAs(c).Valid() && CivilFromDay(DayOf(ReadAs(c))) == ReadAs(c)
  {
    hide CivilFromDay, DayOf;
    if c.year < 100 {
      assert IsLeap(1900 + c.year) == IsLeap(c.year);
    }
    CivilUnique(ReadAs(c), CivilFromDay(DayOf(ReadAs(c))));
  }

  /** A date is read as itself from the year 100 on, and as a later date before. */
  lemma ReadDayIsNoEarlier(day: int)
    requires CommonEra(day)
    ensures CivilFromDay(ReadDay(day)) == ReadAs(CivilFromDay(day))
    ensures Modern(ReadDay(day)) && ReadDay(day) >= day && (ReadDay(day) == day <==> Modern(day))
  {
    hide CivilFromDay, DayOf;
    ReadAsValid(CivilFromDay(day));
    if !Modern(day) && ReadDay(day) <= day {
      YearsFollowDays(ReadDay(day), day);
    }
  }

  /** A date that is not read as itself is read as one more than a year later. */
  lemma ReadFarLater(day: int)
    requires CommonEra(day) && !Modern(day)
    ensures ReadDay(day) > day + 365
  {
    hide CivilFromDay, DayOf, DayFromYear;
    var c := CivilFromDay(day);
    ReadAsValid(c);
    DayBounds(c);
    DayBounds(ReadAs(c));
    YearsIncrease(c.year + 1, 1900 + c.year);
  }

  /**
    `addCalendarDaysISO` is an action of the integers on dates: adding `a` and then `b` is adding
    `a + b`, exactly when noon UTC keeps its day in the zone and the date in between, `mid`, is read
    back as itself, or else both ways leave the range of a Date.  `first` is the date that `day` is
    read as.
   */
  lemma AddIsAction(day: int, a: int, b: int, zone: int)
    requires -MS_PER_DAY <= zone <= MS_PER_DAY && CommonEra(day)
    requires var first, drift := ReadDay(day), Drift(zone);
             var mid := first + a + drift;
             CommonEra(mid) && CommonEra(first + a + b + drift) && CommonEra(ReadDay(mid) + b + drift)
    ensures var first := ReadDay(day);
            var mid := first + a + Drift(zone);
            (AddCalendarDaysISO(AddCalendarDaysISO(Format(day), a, zone), b, zone)
              == AddCalendarDaysISO(Format(day), a + b, zone)
             <==> if Representable(first + a)
                  then (NoonKeepsDay(zone) && Modern(mid))
                       || (!Representable(first + a + b) && !Representable(ReadDay(mid) + b))
                  else !Representable(first + a + b))
  {
    hide AddCalendarDaysISO, Format, CivilFromDay, CommonEra, Modern, Representable, NoonKeepsDay, ReadDay, Drift;
    var first, drift := ReadDay(day), Drift(zone);
    var mid := first + a + drift;
    AddToPrinted(day, a, zone);
    AddToPrinted(day, a + b, zone);
    DriftOfNoon(day, zone);
    assert first + (a + b) == first + a + b;
    if Representable(first + a) {
      var last := ReadDay(mid) + b;
      AddToPrinted(mid, b, zone);
      ReadDayIsNoEarlier(mid);
      if !Modern(mid) {
        ReadFarLater(mid);
      }
      assert last == first + a + b <==> drift == 0 && Modern(mid);
      PrintsOfTwo(last, first + a + b, drift);
    } else {
      AddToEmpty(b, zone);
    }
  }

  /** Two dates, each printed with its drift if a Date can hold it, print alike. */
  lemma PrintsOfTwo(a: int, b: int, drift: int)
    requires CommonEra(a + drift) && CommonEra(b + drift)
    ensures (if Representable(a) then Format(a + drift) else "") == (if Representable(b) then Format(b + drift) else "")
        <==> a == b || (!Representable(a) && !Representable(b))
  {
    hide Format, CommonEra, Representable;
    if Format(a + drift) == Format(b + drift) {
      FormatInjective(a + drift, b + drift);
    }
  }

  /** With noon UTC on its own day, the law for dates that stay in range. */
  lemma AddIsActionInRange(day: int, a: int, b: int, zone: int)
    requires NoonKeepsDay(zone) && Modern(day) && Modern(day + a) && CommonEra(day + a + b)
    requires Representable(day + a)
    ensures AddCalendarDaysISO(AddCalendarDaysISO(Format(day), a, zone), b, zone)
         == AddCalendarDaysISO(Format(day), a + b, zone)
  {
    hide AddCalendarDaysISO, Format, CivilFromDay, Representable, ReadDay, Drift, DayOf;
    DriftOfNoon(day, zone);
    ReadDayIsNoEarlier(day);
    ReadDayIsNoEarlier(day + a);
    AddIsAction(day, a, b, zone);
  }

  /**
    Subtracting undoes adding, across month, year and leap-day boundaries, exactly when noon UTC keeps
    its day in the zone, neither date is of the years 1 to 99 and the date in between is one that a
    Date can hold.
   */
  lemma SubtractUndoesAdd(day: int, a: int, zone: int)
    requires -MS_PER_DAY <= zone <= MS_PER_DAY && CommonEra(day) && Representable(day)
    requires var mid := ReadDay(day) + a + Drift(zone); CommonEra(mid) && CommonEra(ReadDay(mid) - a + Drift(zone))
    ensures var first := ReadDay(day);
            (AddCalendarDaysISO(AddCalendarDaysISO(Format(day), a, zone), -a, zone) == Format(day)
             <==> NoonKeepsDay(zone) && Modern(day) && Modern(first + a + Drift(zone)) && Representable(first + a))
  {
    hide AddCalendarDaysISO, Format, CivilFromDay, CommonEra, Modern, Representable, NoonKeepsDay, ReadDay, Drift;
    var first, drift := ReadDay(day), Drift(zone);
    var mid := first + a + drift;
    AddToPrinted(day, a, zone);
    DriftOfNoon(day, zone);
    ReadDayIsNoEarlier(day);
    ReadDayIsNoEarlier(mid);
    if !Modern(day) {
      ReadFarLater(day);
    }
    if !Modern(mid) {
      ReadFarLater(mid);
    }
    if Representable(first + a) {
      var back := ReadDay(mid) + -a;
      AddToPrinted(mid, -a, zone);
      assert back + drift == day <==> drift == 0 && Modern(day) && Modern(mid);
      if Format(back + drift) == Format(day) {
        FormatInjective(back + drift, day);
      }
    } else {
      AddToEmpty(-a, zone);
    }
  }

  /**
    Adding no days is the identity on exactly the dates from the year 100 on, in exactly the zones
    where noon UTC keeps its day; a zone is at most a day away from UTC.
   */
  lemma AddZeroIsIdentity(day: int, zone: int)
    requires CommonEra(day) && Representable(day)
    requires -MS_PER_DAY <= zone <= MS_PER_DAY
    ensures AddCalendarDaysISO(Format(day), 0, zone) == Format(day) <==> Modern(day) && NoonKeepsDay(zone)
  {
    hide AddCalendarDaysISO, Format, CivilFromDay, Representable, NoonKeepsDay, Drift, LocalDay, ReadDay;
    DriftOfNoon(day, zone);
    AddToPrinted(day, 0, zone);
    ReadDayIsNoEarlier(day);
    PrintsApart(ReadDay(day), day, Drift(zone));
  }

  lemma YearOfNeighbour(day: int, step: int)
    requires -1 <= step <= 1
    ensures CivilFromDay(day).year - 1 <= CivilFromDay(day + step).year <= CivilFromDay(day).year + 1
  {
    hide CivilFromDay, DayFromYear;
    var c, n := CivilFromDay(day), CivilFromDay(day + step);
    DayBounds(c);
    DayBounds(n);
    if n.year < c.year - 1 {
      YearsIncrease(n.year + 1, c.year - 1);
      YearsIncrease(c.year - 1, c.year);
    } else if n.year > c.year + 1 {
      YearsIncrease(c.year + 1, c.year + 2);
      YearsIncrease(c.year + 2, n.year);
    }
  }

  /** Dates a day apart, or in years of different centuries, print differently. */
  lemma PrintsApart(a: int, b: int, step: int)
    requires -1 <= step <= 1 && CommonEra(b)
    requires (a == b && CivilFromDay(a).year >= 2) || CivilFromDay(a).year >= CivilFromDay(b).year + 2
    ensures Format(a + step) == Format(b) <==> a == b && step == 0
  {
    hide Format, CivilFromDay, DayOf, Civil.Valid;
    YearOfNeighbour(a, step);
    if Format(a + step) == Format(b) {
      FormatInjective(a + step, b);
    }
  }

  // ----- Weekdays, tomorrow and the next weekend -----

  /** From the year 100 on, every later date is read as itself too. */
  lemma StillModern(day: int, k: nat)
    requires Modern(day)
    ensures Modern(day + k) && CommonEra(day + k) && ReadDay(day + k) == day + k
  {
    hide CivilFromDay, DayOf;
    YearsFollowDays(day, day + k);
    ReadDayIsNoEarlier(day + k);
  }

  lemma WeekdayOfPrinted(day: int, zone: int)
    requires CommonEra(day)
    ensures GetWeekdaySun0(Format(day), zone)
         == if Representable(ReadDay(day)) then Some(WeekDay(ReadDay(day) + Drift(zone))) else None
  {
    hide CivilFromDay, Format, NoonUTC, Part, Drift, LocalDay, ReadDay, WeekDay;
    PartsOfFormat(day);
    NoonOfPrinted(day, 0);
    DriftOfNoon(ReadDay(day), zone);
  }

  lemma WeekDayStep(day: int, delta: int)
    ensures WeekDay(day + delta) == (WeekDay(day) + delta) % 7
  {
  }

  lemma SameWeekDay(a: int, b: int)
    ensures WeekDay(a) == WeekDay(b) <==> (a - b) % 7 == 0
  {
  }

  /**
    The weekday advances modulo 7 as days are added, exactly when the day reached, `last`, is read back
    a whole number of weeks from where it is.  From the year 100 on that means in exactly the zones
    where noon UTC keeps its day.
   */
  lemma WeekdayAdvances(day: int, delta: int, zone: int)
    requires -MS_PER_DAY <= zone <= MS_PER_DAY && CommonEra(day)
    requires Representable(ReadDay(day)) && Representable(ReadDay(day) + delta)
    requires var last := ReadDay(day) + delta + Drift(zone); CommonEra(last) && Representable(ReadDay(last))
    ensures var before, after := GetWeekdaySun0(Format(day), zone),
                                 GetWeekdaySun0(AddCalendarDaysISO(Format(day), delta, zone), zone);
            var last := ReadDay(day) + delta + Drift(zone);
            && before.Some? && after.Some?
            && (after.value == (before.value + delta) % 7 <==> (ReadDay(last) + Drift(zone) - last) % 7 == 0)
            && (Modern(last) ==> (after.value == (before.value + delta) % 7 <==> NoonKeepsDay(zone)))
  {
    hide CivilFromDay, Format, AddCalendarDaysISO, GetWeekdaySun0, WeekDay, Modern, Representable, ReadDay, CommonEra;
    hide NoonKeepsDay, Drift;
    var first := ReadDay(day);
    var last := first + delta + Drift(zone);
    AddToPrinted(day, delta, zone);
    WeekdayOfPrinted(day, zone);
    WeekdayOfPrinted(last, zone);
    WeekDayStep(first + Drift(zone), delta);
    assert first + Drift(zone) + delta == last;
    SameWeekDay(ReadDay(last) + Drift(zone), last);
    ReadDayIsNoEarlier(last);
    DriftOfNoon(day, zone);
  }

  lemma LocalDayStep(t: int, zone: int)
    ensures LocalDay(t + MS_PER_DAY, zone) == LocalDay(t, zone) + 1
  {
  }

  lemma NextDayPrints(day: int, drift: int)
    requires CommonEra(day) && -1 <= drift <= 1
    ensures var first := ReadDay(day);
            (Format(day + 1) == (if Representable(first + 1) then Format(first + 1 + drift) else "")
             <==> drift == 0 && Modern(day) && Representable(day + 1))
  {
    hide CivilFromDay, Format, CommonEra, Modern, Representable, ReadDay;
    var first := ReadDay(day);
    ReadDayIsNoEarlier(day);
    if !Modern(day) {
      ReadFarLater(day);
    }
    LaterIsCommonEra(day, day + 1);
    LaterIsCommonEra(day, first + 1 + drift);
    if Format(first + 1 + drift) == Format(day + 1) {
      FormatInjective(first + 1 + drift, day + 1);
    }
  }

  /**
    Twenty-four hours later it is the date that `addCalendarDaysISO` gives for one day more, exactly
    when noon UTC keeps its day in the zone, today is of the year 100 or later and a Date can hold
    noon of tomorrow.
   */
  lemma TomorrowIsTodayPlusOne(now: int, zone: int)
    requires -MS_PER_DAY <= zone <= MS_PER_DAY && TimeClip(now).Some? && TimeClip(now + MS_PER_DAY).Some?
    requires CommonEra(LocalDay(now, zone))
    ensures var today := LocalDay(now, zone);
            (GetTomorrowISO(zone, Some(now)) == AddCalendarDaysISO(GetTodayISO(zone, Some(now)), 1, zone)
             <==> NoonKeepsDay(zone) && Modern(today) && Representable(today + 1))
  {
    hide CivilFromDay, Format, AddCalendarDaysISO, LocalDay, CommonEra, Modern, Representable, NoonKeepsDay, ReadDay, Drift;
    LocalDayStep(now, zone);
    DriftOfNoon(0, zone);
    AddToPrinted(LocalDay(now, zone), 1, zone);
    NextDayPrints(LocalDay(now, zone), Drift(zone));
  }

  lemma NextWeekendOfToday(day: int, zone: int, now: int)
    requires -MS_PER_DAY <= zone <= MS_PER_DAY && day == LocalDay(now, zone) && CommonEra(day)
    requires Representable(ReadDay(day)) && Representable(ReadDay(day) + 7) && Modern(ReadDay(day) + Drift(zone))
    ensures var first, drift := ReadDay(day), Drift(zone);
            var sat := first + 6 - WeekDay(first + drift) + drift;
            && GetNextWeekendISO(zone, Some(now)).Some?
            && GetNextWeekendISO(zone, Some(now)).value.0 == Format(sat)
            && (drift == 0 ==> GetNextWeekendISO(zone, Some(now)).value.1 == Format(sat + 1))
  {
    hide CivilFromDay, Format, AddCalendarDaysISO, GetWeekdaySun0, CommonEra, Modern, NoonKeepsDay, LocalDay, ReadDay, Drift;
    var first, drift := ReadDay(day), Drift(zone);
    var toSat := 6 - WeekDay(first + drift);
    WeekdayOfPrinted(day, zone);
    AddToPrinted(day, toSat, zone);
    StillModern(first + drift, toSat);
    AddToPrinted(first + toSat + drift, 1, zone);
  }

  lemma SaturdayAhead(day: int, k: nat)
    requires k < 7
    ensures 0 <= WeekDay(day) < 7
    ensures WeekDay(day + k) == 6 <==> k == 6 - WeekDay(day)
  {
  }

  /** Of the day `k` days after today: it is a Saturday just when it is `sat`, and then `sun` is the day after it. */
  predicate IsNextWeekend(today: string, zone: int, weekend: (string, string), k: nat) {
    var date := AddCalendarDaysISO(today, k, zone);
    && (GetWeekdaySun0(date, zone) == Some(6) <==> weekend.0 == date)
    && (weekend.0 == date ==> weekend.1 == AddCalendarDaysISO(today, k + 1, zone))
  }

  /**
    For every instant and zone, the first date of the next weekend is the only Saturday from today
    to six days ahead, and the second date is the day after it.
   */
  lemma NextWeekendIsNextSaturday(now: int, zone: int, k: nat)
    requires NoonKeepsDay(zone) && k < 7 && CommonEra(LocalDay(now, zone))
    requires var first := ReadDay(LocalDay(now, zone)); Representable(first) && Representable(first + 7)
    ensures GetNextWeekendISO(zone, Some(now)).Some?
    ensures IsNextWeekend(GetTodayISO(zone, Some(now)), zone, GetNextWeekendISO(zone, Some(now)).value, k)
  {
    hide CivilFromDay, Format, AddCalendarDaysISO, GetWeekdaySun0, GetNextWeekendISO, NoonKeepsDay, LocalDay;
    hide WeekDay, DayOf, Civil.Valid, ReadDay, CommonEra, Modern, Drift;
    var today := LocalDay(now, zone);
    var first := ReadDay(today);
    DriftOfNoon(first, zone);
    SaturdayAhead(first, k);
    var toSat := 6 - WeekDay(first);
    ReadDayIsNoEarlier(today);
    StillModern(first, k);
    StillModern(first, toSat);
    AddInZone(today, k, zone);
    AddInZone(today, k + 1, zone);
    WeekdayOfPrinted(first + k, zone);
    ZoneIsNear(zone);
    NextWeekendOfToday(today, zone, now);
    if Format(first + toSat) == Format(first + k) {
      FormatInjective(first + toSat, first + k);
    }
  }

  lemma ZoneIsNear(zone: int)
    requires NoonKeepsDay(zone)
    ensures -MS_PER_DAY <= zone <= MS_PER_DAY
  {
  }

  /** In a zone where noon UTC is another day, the date given as the Saturday is not one. */
  lemma NoSaturdayWithDrift(now: int, zone: int)
    requires -MS_PER_DAY <= zone <= MS_PER_DAY && !NoonKeepsDay(zone) && CommonEra(LocalDay(now, zone))
    requires var first := ReadDay(LocalDay(now, zone));
             Representable(first) && Representable(first + 7) && Modern(first + Drift(zone))
    ensures GetNextWeekendISO(zone, Some(now)).Some?
    ensures GetWeekdaySun0(GetNextWeekendISO(zone, Some(now)).value.0, zone) != Some(6)
  {
    hide CivilFromDay, Format, AddCalendarDaysISO, GetWeekdaySun0, GetNextWeekendISO, NoonKeepsDay, LocalDay;
    hide WeekDay, DayOf, Civil.Valid, ReadDay, CommonEra, Modern, Drift;
    var first, drift := ReadDay(LocalDay(now, zone)), Drift(zone);
    var toSat := 6 - WeekDay(first + drift);
    DriftOfNoon(first, zone);
    SaturdayAhead(first + drift, 0);
    NextWeekendOfToday(LocalDay(now, zone), zone, now);
    StillModern(first + drift, toSat);
    WeekdayOfPrinted(first + drift + toSat, zone);
    WeekDayStep(first + drift, toSat + drift);
  }

  /** All of it holds, for the days from today to six days ahead, in exactly the zones where noon UTC keeps its day. */
  lemma NextWeekendIff(now: int, zone: int)
    requires -MS_PER_DAY <= zone <= MS_PER_DAY && CommonEra(LocalDay(now, zone))
    requires var first := ReadDay(LocalDay(now, zone));
             Representable(first) && Representable(first + 7) && Modern(first + Drift(zone))
    ensures GetNextWeekendISO(zone, Some(now)).Some?
    ensures var weekend := GetNextWeekendISO(zone, Some(now)).value;
            (forall k: nat | k < 7 :: IsNextWeekend(GetTodayISO(zone, Some(now)), zone, weekend, k)) <==> NoonKeepsDay(zone)
  {
    hide CivilFromDay, Format, AddCalendarDaysISO, GetWeekdaySun0, GetNextWeekendISO, NoonKeepsDay;
    hide DayOf, Civil.Valid, ReadDay, CommonEra, Modern, Drift, Representable, LocalDay;
    if NoonKeepsDay(zone) {
      NextWeekendIsNextSaturday(now, zone, 0);
      forall k: nat | k < 7
        ensures IsNextWeekend(GetTodayISO(zone, Some(now)), zone, GetNextWeekendISO(zone, Some(now)).value, k)
      {
        NextWeekendIsNextSaturday(now, zone, k);
      }
    } else {
      var day := LocalDay(now, zone);
      var toSat: nat := 6 - WeekDay(ReadDay(day) + Drift(zone));
      NoSaturdayWithDrift(now, zone);
      NextWeekendOfToday(day, zone, now);
      AddToPrinted(day, toSat, zone);
      InReach(ReadDay(day), toSat);
      assert !IsNextWeekend(GetTodayISO(zone, Some(now)), zone, GetNextWeekendISO(zone, Some(now)).value, toSat);
    }
  }

  lemma InReach(day: int, k: nat)
    requires Representable(day) && Representable(day + 7) && k <= 7
    ensures Representable(day + k)
  {
  }

  // ----- The dates and weekdays themselves -----

  /** Weekdays are counted from Sunday, the fourth of January 1970. */
  lemma WeekdayFromSunday(day: int, zone: int)
    requires NoonKeepsDay(zone) && Modern(day) && Representable(day)
    ensures GetWeekdaySun0(Format(day), zone) == Some((day - DayOf(Civil(1970, 1, 4))) % 7)
    ensures DayOf(Civil(1970, 1, 1)) == 0
  {
    FirstDays();
    hide CivilFromDay, Format, GetWeekdaySun0, Representable, ReadDay, Drift, DayOf;
    DriftOfNoon(day, zone);
    ReadDayIsNoEarlier(day);
    WeekdayOfPrinted(day, zone);
  }

  lemma SixIsSaturday(day: int)
    ensures WeekDay(day) == 6 <==> (day - 2) % 7 == 0
  {
  }

  /** The weekend is the first Saturday from today on, a whole number of weeks from the third of January 1970. */
  lemma NextWeekendFromSaturday(now: int, zone: int)
    requires NoonKeepsDay(zone) && Modern(LocalDay(now, zone))
    requires var today := LocalDay(now, zone); Representable(today) && Representable(today + 7)
    ensures exists sat ::
              && LocalDay(now, zone) <= sat < LocalDay(now, zone) + 7 && (sat - DayOf(Civil(1970, 1, 3))) % 7 == 0
              && GetNextWeekendISO(zone, Some(now)) == Some((Format(sat), Format(sat + 1)))
  {
    FirstDays();
    hide CivilFromDay, Format, GetNextWeekendISO, LocalDay, ReadDay, Drift, Representable, DayOf;
    var today := LocalDay(now, zone);
    DriftOfNoon(today, zone);
    ReadDayIsNoEarlier(today);
    ZoneIsNear(zone);
    NextWeekendOfToday(today, zone, now);
    var sat := today + 6 - WeekDay(today);
    SaturdayAhead(today, 6 - WeekDay(today));
    SixIsSaturday(sat);
    assert GetNextWeekendISO(zone, Some(now)) == Some((Format(sat), Format(sat + 1)));
  }

  lemma {:induction false} NoLeadingZero(n: nat)
    requires n > 0
    ensures Print(n)[0] != '0'
  {
    if n >= 10 {
      NoLeadingZero(n / 10);
    }
  }

  /** A printed date ends in two digits for the month and two for the day, and its year has no leading zero. */
  lemma ShapeOfFormat(day: int)
    ensures var iso := Format(day);
            && |iso| >= 7 && iso[|iso| - 3] == '-' && iso[|iso| - 6] == '-' && iso[0] != '0'
            && AllDigits(iso[..|iso| - 6]) && AllDigits(iso[|iso| - 5..|iso| - 3]) && AllDigits(iso[|iso| - 2..])
  {
    hide CivilFromDay, Print, Print2;
    var c := CivilFromDay(day);
    var y, m, d := Print(if c.year >= 1 then c.year else 1 - c.year), Print2(c.month), Print2(c.day);
    NoLeadingZero(if c.year >= 1 then c.year else 1 - c.year);
    TwoDigits(c.month);
    TwoDigits(c.day);
    var iso := Format(day);
    assert iso == y + "-" + m + "-" + d;
    assert iso[..|iso| - 6] == y && iso[|iso| - 5..|iso| - 3] == m && iso[|iso| - 2..] == d;
  }

  lemma TwoDigits(n: nat)
    requires n < 100
    ensures |Print2(n)| == 2
  {
    if n >= 10 {
      assert |Print(n / 10)| == 1;
    }
  }

  /** Years before the year 1 are printed as years of the era before: the year 0 is 1 BC. */
  lemma YearOfItsEra(day: int)
    requires CivilFromDay(day).year < 1
    ensures Part(Format(day), 0) == 1 - CivilFromDay(day).year
  {
    hide CivilFromDay, Print, Print2, Split, Value;
    var c := CivilFromDay(day);
    var y, rest := Print(1 - c.year), Print2(c.month) + "-" + Print2(c.day);
    NoDash(y);
    SplitPiece(y, rest, '-');
    assert Format(day) == y + ['-'] + rest;
    ValueOfPrint(1 - c.year);
  }

  /** Today is the day whose twenty-four hours of zone time the instant falls into. */
  lemma TodayIs(now: int, zone: int, day: int)
    requires day * 86_400_000 <= now + zone < (day + 1) * 86_400_000
    ensures GetTodayISO(zone, Some(now)) == Format(day)
    ensures TimeClip(now + 86_400_000).Some? ==> GetTomorrowISO(zone, Some(now)) == Format(day + 1)
  {
    hide Format;
    assert LocalDay(now, zone) == day && LocalDay(now + 86_400_000, zone) == day + 1;
  }

  /** A text with a part missing or zero is left alone and has the weekday of Sunday; an invalid instant has no date. */
  lemma NotADate(text: string, delta: int, zone: int)
    requires Part(text, 0) == 0 || Part(text, 1) == 0 || Part(text, 2) == 0
    ensures AddCalendarDaysISO(text, delta, zone) == text && GetWeekdaySun0(text, zone) == Some(0)
    ensures GetTodayISO(zone, None) == "" && GetTomorrowISO(zone, None) == ""
  {
    hide Part, NoonUTC, LocalDay, WeekDay;
  }

  lemma WithoutDash(text: string)
    requires '-' !in text
    ensures Part(text, 1) == Part(text, 2) == 0
  {
    SplitPiece(text, [], '-');
  }

  /** The instants of a Date are those within a hundred million days of 1970. */
  lemma InstantsOfDate(t: int)
    ensures TimeClip(t) == if -8_640_000_000_000_000 <= t && t <= 8_640_000_000_000_000 then Some(t) else None
  {
    LengthsOfTime();
  }
}
