/**
 The (timestamp, waMessageId) key that orders a group's messages, and the string the worker stores
 for it in `predecessor`.
 */
module Keys {

  /** Milliseconds, the precision BSON dates keep, since 0000-03-01T00:00:00Z. */
  type Timestamp = nat

  datatype Key = Key(timestamp: Timestamp, waMessageId: string)

  const MS_PER_DAY: nat := 86400000

  // ---- Order ---------------------------------------------------------------------------------

  /** MongoDB's string order: the first differing character decides, and a proper prefix comes first. */
  predicate StringLess(a: string, b: string) {
    b != [] && (a == [] || a[0] < b[0] || (a[0] == b[0] && StringLess(a[1..], b[1..])))
  }

  predicate Less(a: Key, b: Key) {
    a.timestamp < b.timestamp || (a.timestamp == b.timestamp && StringLess(a.waMessageId, b.waMessageId))
  }

  lemma StringLessIsStrict(a: string, b: string)
    ensures !(StringLess(a, b) && StringLess(b, a))
    ensures StringLess(a, b) || a == b || StringLess(b, a)
  {
    if a != [] && b != [] {
      StringLessIsStrict(a[1..], b[1..]);
      assert a == [a[0]] + a[1..] && b == [b[0]] + b[1..];
    }
  }

  lemma StringLessIsTransitive(a: string, b: string, c: string)
    requires StringLess(a, b) && StringLess(b, c)
    ensures StringLess(a, c)
  {
    if a != [] && a[0] == b[0] == c[0] {
      StringLessIsTransitive(a[1..], b[1..], c[1..]);
    }
  }

  /** The first place where two strings differ decides, and a string comes before every longer one it begins. */
  ghost predicate Precedes(a: string, b: string) {
    (|a| < |b| && a == b[..|a|]) || exists k: nat :: FirstDiffer(a, b, k)
  }

  predicate FirstDiffer(a: string, b: string, k: nat) {
    k < |a| && k < |b| && a[..k] == b[..k] && a[k] < b[k]
  }

  lemma {:induction false} StringOrder(a: string, b: string)
    ensures StringLess(a, b) <==> Precedes(a, b)
    decreases |a|
  {
    if a != [] && b != [] {
      StringOrder(a[1..], b[1..]);
      if a[0] == b[0] {
        RestPrecedes(a, b);
      } else if a[0] < b[0] {
        assert FirstDiffer(a, b, 0);
      } else {
        forall k: nat ensures !FirstDiffer(a, b, k) {
          assert k < |a| && k < |b| && k > 0 ==> a[..k][0] != b[..k][0];
        }
      }
    }
  }

  lemma RestPrecedes(a: string, b: string)
    requires a != [] && b != [] && a[0] == b[0]
    ensures Precedes(a, b) <==> Precedes(a[1..], b[1..])
  {
    assert a == [a[0]] + a[1..] && b == [b[0]] + b[1..];
    forall k: nat | k < |a[1..]| && k < |b[1..]| ensures FirstDiffer(a, b, k + 1) <==> FirstDiffer(a[1..], b[1..], k) {
      assert a[..k + 1] == [a[0]] + a[1..][..k] && b[..k + 1] == [b[0]] + b[1..][..k];
      assert a[..k + 1][1..] == a[1..][..k] && b[..k + 1][1..] == b[1..][..k];
    }
    if k: nat :| FirstDiffer(a, b, k) {
      assert k > 0;
      assert FirstDiffer(a[1..], b[1..], k - 1);
    }
    if |a| <= |b| {
      assert a == b[..|a|] <==> a[1..] == b[1..][..|a[1..]|] by {
        assert b[..|a|] == [b[0]] + b[1..][..|a[1..]|];
        assert b[..|a|][1..] == b[1..][..|a[1..]|];
      }
    }
  }

  /**
   The key order compares any two keys, one way only. With transitivity it is a strict total order, so a watermark
   splits a group's messages cleanly.
   */
  lemma LessIsStrictTotal(a: Key, b: Key)
    ensures !(Less(a, b) && Less(b, a))
    ensures !Less(a, a)
    ensures Less(a, b) || a == b || Less(b, a)
  {
    StringLessIsStrict(a.waMessageId, b.waMessageId);
    StringLessIsStrict(a.waMessageId, a.waMessageId);
  }

  lemma LessIsTransitive(a: Key, b: Key, c: Key)
    requires Less(a, b) && Less(b, c)
    ensures Less(a, c)
  {
    if a.timestamp == b.timestamp == c.timestamp {
      StringLessIsTransitive(a.waMessageId, b.waMessageId, c.waMessageId);
    }
  }

  // ---- Calendar date ---------------------------------------------------------------------------

  datatype Civil = Civil(year: nat, month: nat, day: nat, hour: nat, minute: nat, second: nat, milli: nat)

  /** The days from 0000-03-01 to the first of March of year `y`: leap days fall at the end of such a year. */
  function DaysBefore(y: nat): nat {
    365 * y + y / 4 - y / 100 + y / 400
  }

  /** The year, counted from March to February, that holds a day. */
  function MarchYear(days: nat, from: nat := 0): (y: nat)
    requires DaysBefore(from) <= days
    ensures DaysBefore(y) <= days < DaysBefore(y + 1)
    decreases days - from
  {
    if days < DaysBefore(from + 1) then from else MarchYear(days, from + 1)
  }

  /** The proleptic Gregorian date and time of day of a timestamp. */
  function CivilOf(t: Timestamp): (c: Civil)
    ensures 1 <= c.month <= 12 && 1 <= c.day <= 31
    ensures c.hour < 24 && c.minute < 60 && c.second < 60 && c.milli < 1000
  {
    var year := MarchYear(t / MS_PER_DAY);
    var dayOfYear := t / MS_PER_DAY - DaysBefore(year);
    var marchMonth := (5 * dayOfYear + 2) / 153;
    var month := if marchMonth < 10 then marchMonth + 3 else marchMonth - 9;
    var ms := t % MS_PER_DAY;
    Civil(if month <= 2 then year + 1 else year,
          month,
          dayOfYear - (153 * marchMonth + 2) / 5 + 1,
          ms / 3600000, ms / 60000 % 60, ms / 1000 % 60, ms % 1000)
  }

  /** The timestamp a date stands for: the inverse of `CivilOf`. */
  function TimestampOf(c: Civil): int {
    var marchMonth := if c.month <= 2 then c.month + 9 else c.month - 3;
    var marchYear := if c.month <= 2 then c.year - 1 else c.year;
    var days := (if marchYear < 0 then 0 else DaysBefore(marchYear)) + (153 * marchMonth + 2) / 5 + c.day - 1;
    days * MS_PER_DAY + c.hour * 3600000 + c.minute * 60000 + c.second * 1000 + c.milli
  }

  lemma TimeOfDay(ms: nat)
    requires ms < MS_PER_DAY
    ensures ms == ms / 3600000 * 3600000 + ms / 60000 % 60 * 60000 + ms / 1000 % 60 * 1000 + ms % 1000
  {
    var seconds := ms / 1000;
    var minutes := seconds / 60;
    assert ms / 60000 == minutes && ms / 3600000 == minutes / 60;
    assert minutes == minutes / 60 * 60 + minutes % 60 && seconds == minutes * 60 + seconds % 60;
  }

  /** No two timestamps share a date: formatting one loses nothing. */
  lemma CivilRoundTrip(t: Timestamp)
    ensures TimestampOf(CivilOf(t)) == t
  {
    TimeOfDay(t % MS_PER_DAY);
  }

  /** Whether a year has 366 days. */
  predicate IsLeap(year: int) {
    year % 4 == 0 && (year % 100 != 0 || year % 400 == 0)
  }

  function DaysIn(month: nat, year: nat): nat {
    if month == 2 then (if IsLeap(year) then 29 else 28)
    else if month in {4, 6, 9, 11} then 30 else 31
  }

  /** The day after a date, by the calendar. */
  function NextDate(c: Civil): Civil {
    if c.day < DaysIn(c.month, c.year) then c.(day := c.day + 1)
    else if c.month < 12 then c.(month := c.month + 1, day := 1)
    else c.(year := c.year + 1, month := 1, day := 1)
  }

  lemma Quarters(y: nat)
    ensures (y + 1) / 4 - y / 4 == if (y + 1) % 4 == 0 then 1 else 0
  {
  }

  lemma Centuries(y: nat)
    ensures (y + 1) / 100 - y / 100 == if (y + 1) % 100 == 0 then 1 else 0
    ensures (y + 1) % 100 == 0 ==> (y + 1) % 4 == 0
  {
  }

  lemma Cycles(y: nat)
    ensures (y + 1) / 400 - y / 400 == if (y + 1) % 400 == 0 then 1 else 0
    ensures (y + 1) % 400 == 0 ==> (y + 1) % 100 == 0
  {
  }

  /** A year that ends in February is as long as the calendar year it ends in. */
  lemma YearLength(y: nat)
    ensures DaysBefore(y + 1) - DaysBefore(y) == if IsLeap(y + 1) then 366 else 365
  {
    Quarters(y);
    Centuries(y);
    Cycles(y);
  }

  lemma {:induction false} DaysBeforeGrows(a: nat, b: nat)
    requires a <= b
    ensures DaysBefore(a) <= DaysBefore(b)
    decreases b - a
  {
    if a < b {
      YearLength(a);
      DaysBeforeGrows(a + 1, b);
    }
  }

  lemma MarchYearIs(days: nat, y: nat)
    requires DaysBefore(y) <= days < DaysBefore(y + 1)
    ensures MarchYear(days) == y
  {
    var z := MarchYear(days);
    if z < y {
      DaysBeforeGrows(z + 1, y);
    } else if y < z {
      DaysBeforeGrows(y + 1, z);
    }
  }

  /** The month after March and the day of the month that `CivilOf` makes of a day of a year that begins in March. */
  predicate FallsOn(dayOfYear: nat, marchMonth: nat, day: int) {
    marchMonth == (5 * dayOfYear + 2) / 153 && day == dayOfYear - (153 * marchMonth + 2) / 5 + 1
  }

  /** Within a year from March to February the months have their lengths; only the last depends on the year. */
  lemma NextDay(dayOfYear: nat, month: nat, day: nat, nextMonth: nat, nextDay: int)
    requires dayOfYear < 365
    requires FallsOn(dayOfYear, month, day) && FallsOn(dayOfYear + 1, nextMonth, nextDay)
    ensures month < 12 && 1 <= day <= if month in {1, 3, 6, 8} then 30 else 31
    ensures if day < (if month in {1, 3, 6, 8} then 30 else 31) then nextMonth == month && nextDay == day + 1
            else nextMonth == month + 1 && nextDay == 1
    ensures month == 11 ==> day == dayOfYear - 336
  {
  }

  predicate AtTime(c: Civil, ms: nat) {
    c.hour == ms / 3600000 && c.minute == ms / 60000 % 60 && c.second == ms / 1000 % 60 && c.milli == ms % 1000
  }

  /** The month and the year counted from March, and the day, name the date. */
  predicate NamesDate(c: Civil, year: nat, month: nat, day: int) {
    && month < 12 && c.day == day && 1 <= c.day
    && c.year == (if month < 10 then year else year + 1) && c.month == (if month < 10 then month + 3 else month - 9)
  }

  lemma DateIs(t: Timestamp, year: nat, dayOfYear: nat, month: nat, day: int, c: Civil)
    requires t / MS_PER_DAY == DaysBefore(year) + dayOfYear < DaysBefore(year + 1)
    requires FallsOn(dayOfYear, month, day) && NamesDate(c, year, month, day) && AtTime(c, t % MS_PER_DAY)
    ensures CivilOf(t) == c
  {
    MarchYearIs(t / MS_PER_DAY, year);
  }

  lemma DateHas(t: Timestamp, year: nat, dayOfYear: nat, month: nat, day: int)
    requires t / MS_PER_DAY == DaysBefore(year) + dayOfYear < DaysBefore(year + 1)
    requires FallsOn(dayOfYear, month, day) && month < 12
    ensures NamesDate(CivilOf(t), year, month, day) && AtTime(CivilOf(t), t % MS_PER_DAY)
  {
    MarchYearIs(t / MS_PER_DAY, year);
  }

  /** Inside a year that begins in March, the calendar's next date is on the next day of that year. */
  lemma NextInYear(c: Civil, year: nat, month: nat, later: nat, day: int)
    requires NamesDate(c, year, month, c.day)
    requires c.day <= if month in {1, 3, 6, 8} then 30 else 31
    requires if c.day < (if month in {1, 3, 6, 8} then 30 else 31) then later == month && day == c.day + 1
             else later == month + 1 && day == 1
    requires month == 11 ==> c.day < DaysIn(2, year + 1)
    ensures NamesDate(NextDate(c), year, later, day)
  {
    assert DaysIn(c.month, c.year) == (if month == 11 then DaysIn(2, year + 1) else if month in {1, 3, 6, 8} then 30 else 31);
  }

  lemma LastOfYear(dayOfYear: nat, month: nat, day: int)
    requires 364 <= dayOfYear <= 365 && month == 11 && day == dayOfYear - 336
    ensures FallsOn(dayOfYear, month, day)
  {
  }

  lemma SameTime(t: Timestamp)
    ensures (t + 86400000) / MS_PER_DAY == t / MS_PER_DAY + 1 && (t + 86400000) % MS_PER_DAY == t % MS_PER_DAY
  {
  }

  lemma NextTime(t: Timestamp)
    ensures AtTime(NextDate(CivilOf(t)), t % MS_PER_DAY)
  {
  }

  /** The date a day after `t`, when the calendar's next date is known to be on that day of the year. */
  lemma NextDateIs(t: Timestamp, next: Civil, year: nat, dayOfYear: nat, month: nat, day: int)
    requires t / MS_PER_DAY + 1 == DaysBefore(year) + dayOfYear < DaysBefore(year + 1)
    requires FallsOn(dayOfYear, month, day) && NamesDate(next, year, month, day) && AtTime(next, t % MS_PER_DAY)
    ensures CivilOf(t + 86400000) == next
  {
    SameTime(t);
    DateIs(t + 86400000, year, dayOfYear, month, day, next);
  }

  lemma NextDateInYear(t: Timestamp, year: nat, n: nat, month: nat, today: nat, later: nat, day: int)
    requires t / MS_PER_DAY == DaysBefore(year) + n && n + 1 < DaysBefore(year + 1) - DaysBefore(year)
    requires FallsOn(n, month, today) && FallsOn(n + 1, later, day)
    ensures NamesDate(NextDate(CivilOf(t)), year, later, day)
  {
    YearLength(year);
    NextDay(n, month, today, later, day);
    DateHas(t, year, n, month, today);
    NextInYear(CivilOf(t), year, month, later, day);
  }

  lemma NextDateInMarch(t: Timestamp, year: nat, n: nat)
    requires t / MS_PER_DAY == DaysBefore(year) + n && n + 1 == DaysBefore(year + 1) - DaysBefore(year)
    ensures NamesDate(NextDate(CivilOf(t)), year + 1, 0, 1)
  {
    YearLength(year);
    LastOfYear(n, 11, n - 336);
    DateHas(t, year, n, 11, n - 336);
  }

  lemma InYear(t: Timestamp, year: nat, n: nat, month: nat, today: nat, later: nat, day: int)
    requires t / MS_PER_DAY == DaysBefore(year) + n && n + 1 < DaysBefore(year + 1) - DaysBefore(year)
    requires FallsOn(n, month, today) && FallsOn(n + 1, later, day)
    ensures CivilOf(t + 86400000) == NextDate(CivilOf(t))
  {
    NextDateInYear(t, year, n, month, today, later, day);
    NextTime(t);
    NextDateIs(t, NextDate(CivilOf(t)), year, n + 1, later, day);
  }

  lemma InMarch(t: Timestamp, year: nat, n: nat)
    requires t / MS_PER_DAY == DaysBefore(year) + n && n + 1 == DaysBefore(year + 1) - DaysBefore(year)
    ensures CivilOf(t + 86400000) == NextDate(CivilOf(t))
  {
    NextDateInMarch(t, year, n);
    NextTime(t);
    YearLength(year + 1);
    NextDateIs(t, NextDate(CivilOf(t)), year + 1, 0, 0, 1);
  }

  lemma DayOfYear(n: nat) returns (month: nat, day: nat)
    requires n < 366
    ensures FallsOn(n, month, day)
  {
    month := (5 * n + 2) / 153;
    day := n - (153 * month + 2) / 5 + 1;
  }

  /** One day on, the date is the calendar's next one; from 1970-01-01 on this fixes every date. */
  lemma DatesFollow(t: Timestamp)
    ensures CivilOf(t + 86400000) == NextDate(CivilOf(t))
  {
    var y := MarchYear(t / MS_PER_DAY);
    var n := t / MS_PER_DAY - DaysBefore(y);
    YearLength(y);
    if n + 1 < DaysBefore(y + 1) - DaysBefore(y) {
      var month, today := DayOfYear(n);
      var later, day := DayOfYear(n + 1);
      InYear(t, y, n, month, today, later, day);
    } else {
      InMarch(t, y, n);
    }
  }

  lemma EpochDate()
    ensures CivilOf(62162035200000) == Civil(1970, 1, 1, 0, 0, 0, 0)
  {
    MarchYearIs(719468, 1969);
  }

  // ---- The stored string -----------------------------------------------------------------------

  function DigitChar(d: nat): (c: char)
    requires d < 10
    ensures '0' <= c <= '9'
  {
    ['0', '1', '2', '3', '4', '5', '6', '7', '8', '9'][d]
  }

  /** `n` in decimal, zero-padded to at least `width` digits. */
  function Decimal(n: nat, width: nat): (s: string)
    ensures forall c <- s :: '0' <= c <= '9'
    decreases n, width
  {
    if n == 0 && width == 0 then ""
    else Decimal(n / 10, if width == 0 then 0 else width - 1) + [DigitChar(n % 10)]
  }

  lemma {:induction false} DecimalIsInjective(a: nat, b: nat, width: nat)
    requires Decimal(a, width) == Decimal(b, width)
    ensures a == b
    decreases a, width
  {
    if (a != 0 || width != 0) && (b != 0 || width != 0) {
      var w := if width == 0 then 0 else width - 1;
      var sa, sb := Decimal(a, width), Decimal(b, width);
      assert sa[..|sa| - 1] == Decimal(a / 10, w) && sb[..|sb| - 1] == Decimal(b / 10, w);
      assert sa[|sa| - 1] == DigitChar(a % 10) && sb[|sb| - 1] == DigitChar(b % 10);
      DecimalIsInjective(a / 10, b / 10, w);
    }
  }

  /** The fraction of a second as RFC3339Nano writes it: trailing zeros dropped, and nothing when it is zero. */
  function Fraction(ms: nat): string
    requires ms < 1000
  {
    if ms == 0 then ""
    else if ms % 100 == 0 then "." + Decimal(ms / 100, 1)
    else if ms % 10 == 0 then "." + Decimal(ms / 10, 2)
    else "." + Decimal(ms, 3)
  }

  /** A zero-padded number, a delimiter, and what follows it. */
  function Field(n: nat, width: nat, delimiter: char, rest: string): string {
    Decimal(n, width) + ([delimiter] + rest)
  }

  function Seconds(second: nat, ms: nat): (s: string)
    requires ms < 1000
    ensures forall c <- s :: '0' <= c <= '9' || c == '.'
  {
    Decimal(second, 2) + Fraction(ms)
  }

  /** The RFC3339Nano form of a date in UTC, followed by `rest`. */
  function Format(c: Civil, rest: string): string
    requires c.milli < 1000
  {
    Field(c.year, 4, '-', Field(c.month, 2, '-', Field(c.day, 2, 'T', Field(c.hour, 2, ':', Field(c.minute, 2, ':',
    Seconds(c.second, c.milli) + (['Z'] + rest))))))
  }

  /** The predecessor an empty history is built on. */
  const ORIGIN := "origin"

  function Predecessor(key: Key): string {
    Format(CivilOf(key.timestamp), "\0" + key.waMessageId)
  }

  function Digit(n: nat): char {
    (48 + n % 10) as char
  }

  function TwoDigits(n: nat): string {
    [Digit(n / 10), Digit(n)]
  }

  function ThreeDigits(n: nat): string {
    [Digit(n / 100), Digit(n / 10), Digit(n)]
  }

  function FourDigits(n: nat): string {
    [Digit(n / 1000), Digit(n / 100), Digit(n / 10), Digit(n)]
  }

  lemma LastDigit(n: nat, width: nat)
    requires width > 0
    ensures Decimal(n, width) == Decimal(n / 10, width - 1) + [Digit(n)]
  {
  }

  lemma OneDigitLong(n: nat)
    requires n < 10
    ensures Decimal(n, 1) == [Digit(n)]
  {
    LastDigit(n, 1);
  }

  lemma TwoDigitsLong(n: nat)
    requires n < 100
    ensures Decimal(n, 2) == TwoDigits(n)
  {
    LastDigit(n, 2);
    OneDigitLong(n / 10);
  }

  lemma ThreeDigitsLong(n: nat)
    requires n < 1000
    ensures Decimal(n, 3) == ThreeDigits(n)
  {
    LastDigit(n, 3);
    TwoDigitsLong(n / 10);
    assert n / 10 / 10 == n / 100;
  }

  lemma FourDigitsLong(n: nat)
    requires n < 10000
    ensures Decimal(n, 4) == FourDigits(n)
  {
    LastDigit(n, 4);
    ThreeDigitsLong(n / 10);
    assert n / 10 / 10 == n / 100 && n / 10 / 100 == n / 1000;
  }

  /** A fraction is the point and the three digits of its milliseconds without the zeros they end in. */
  lemma FractionForm(ms: nat, zeros: string)
    requires ms < 1000 && ms > 0
    requires zeros == if ms % 100 == 0 then "00" else if ms % 10 == 0 then "0" else ""
    ensures Fraction(ms) + zeros == "." + ThreeDigits(ms) && Fraction(ms)[|Fraction(ms)| - 1] != '0'
  {
    if ms % 100 == 0 {
      OneDigitLong(ms / 100);
    } else if ms % 10 == 0 {
      TwoDigitsLong(ms / 10);
      assert ms / 10 / 10 == ms / 100;
    } else {
      ThreeDigitsLong(ms);
    }
  }

  /**
   What is stored for a key of a four-digit year: the date, the time to the second, the fraction if there is one,
   a zero character and the message.
   */
  lemma PredecessorForm(key: Key)
    requires CivilOf(key.timestamp).year < 10000
    ensures var c := CivilOf(key.timestamp);
            Predecessor(key) ==
            FourDigits(c.year) + ("-" + (TwoDigits(c.month) + ("-" + (TwoDigits(c.day) + ("T" +
            (TwoDigits(c.hour) + (":" + (TwoDigits(c.minute) + (":" + (TwoDigits(c.second) +
            (if c.milli == 0 then "" else Fraction(c.milli)) + ("Z" + ("\0" + key.waMessageId))))))))))))
  {
    var c := CivilOf(key.timestamp);
    FourDigitsLong(c.year);
    TwoDigitsLong(c.month);
    TwoDigitsLong(c.day);
    TwoDigitsLong(c.hour);
    TwoDigitsLong(c.minute);
    TwoDigitsLong(c.second);
  }

  function IndexOf(s: string, c: char): (i: nat)
    ensures i <= |s|
  {
    if s == [] || s[0] == c then 0 else 1 + IndexOf(s[1..], c)
  }

  lemma FirstIndex(a: string, c: char, rest: string)
    requires c !in a
    ensures IndexOf(a + ([c] + rest), c) == |a|
  {
    if a != [] {
      assert (a + ([c] + rest))[1..] == a[1..] + ([c] + rest);
      FirstIndex(a[1..], c, rest);
    }
  }

  /** Equal strings split at the first occurrence of a delimiter have equal parts. */
  lemma SplitAtDelimiter(a: string, b: string, delimiter: char, x: string, y: string)
    requires delimiter !in a && delimiter !in b
    requires a + ([delimiter] + x) == b + ([delimiter] + y)
    ensures a == b && x == y
  {
    var s, t := a + ([delimiter] + x), b + ([delimiter] + y);
    FirstIndex(a, delimiter, x);
    FirstIndex(b, delimiter, y);
    assert s[..|a|] == a && t[..|b|] == b;
    assert s[|a| + 1..] == x && t[|b| + 1..] == y;
  }

  lemma FieldIsInjective(m: nat, n: nat, width: nat, delimiter: char, x: string, y: string)
    requires !('0' <= delimiter <= '9')
    requires Field(m, width, delimiter, x) == Field(n, width, delimiter, y)
    ensures m == n && x == y
  {
    SplitAtDelimiter(Decimal(m, width), Decimal(n, width), delimiter, x, y);
    DecimalIsInjective(m, n, width);
  }

  lemma SecondsAreInjective(s1: nat, ms1: nat, s2: nat, ms2: nat)
    requires s1 < 60 && s2 < 60 && ms1 < 1000 && ms2 < 1000
    requires Seconds(s1, ms1) == Seconds(s2, ms2)
    ensures s1 == s2 && ms1 == ms2
  {
    DecimalLength(s1, 2);
    DecimalLength(s2, 2);
    assert Seconds(s1, ms1)[..2] == Decimal(s1, 2) && Seconds(s2, ms2)[..2] == Decimal(s2, 2);
    assert Seconds(s1, ms1)[2..] == Fraction(ms1) && Seconds(s2, ms2)[2..] == Fraction(ms2);
    DecimalIsInjective(s1, s2, 2);
    FractionIsInjective(ms1, ms2);
  }

  lemma DecimalLength(n: nat, width: nat)
    requires 1 <= width <= 3
    requires n < if width == 1 then 10 else if width == 2 then 100 else 1000
    ensures |Decimal(n, width)| == width
  {
    assert Decimal(n / 10 / 10 / 10, 0) == "";
    if width > 1 {
      DecimalLength(n / 10, width - 1);
    }
  }

  lemma FractionIsInjective(a: nat, b: nat)
    requires a < 1000 && b < 1000 && Fraction(a) == Fraction(b)
    ensures a == b
  {
    FractionLength(a);
    FractionLength(b);
    if a != 0 {
      var width := |Fraction(a)| - 1;
      var scale := if width == 1 then 100 else if width == 2 then 10 else 1;
      assert Decimal(a / scale, width) == Fraction(a)[1..] == Fraction(b)[1..] == Decimal(b / scale, width);
      DecimalIsInjective(a / scale, b / scale, width);
    }
  }

  lemma FractionLength(ms: nat)
    requires ms < 1000
    ensures |Fraction(ms)| == if ms == 0 then 0 else if ms % 100 == 0 then 2 else if ms % 10 == 0 then 3 else 4
  {
    if ms != 0 {
      DecimalLength(if ms % 100 == 0 then ms / 100 else if ms % 10 == 0 then ms / 10 else ms,
                    if ms % 100 == 0 then 1 else if ms % 10 == 0 then 2 else 3);
    }
  }

  lemma FormatIsInjective(c: Civil, d: Civil, x: string, y: string)
    requires c.milli < 1000 && d.milli < 1000 && c.second < 60 && d.second < 60
    requires Format(c, x) == Format(d, y)
    ensures c == d && x == y
  {
    var c6, d6 := Seconds(c.second, c.milli) + (['Z'] + x), Seconds(d.second, d.milli) + (['Z'] + y);
    var c5, d5 := Field(c.minute, 2, ':', c6), Field(d.minute, 2, ':', d6);
    var c4, d4 := Field(c.hour, 2, ':', c5), Field(d.hour, 2, ':', d5);
    var c3, d3 := Field(c.day, 2, 'T', c4), Field(d.day, 2, 'T', d4);
    var c2, d2 := Field(c.month, 2, '-', c3), Field(d.month, 2, '-', d3);
    FieldIsInjective(c.year, d.year, 4, '-', c2, d2);
    FieldIsInjective(c.month, d.month, 2, '-', c3, d3);
    FieldIsInjective(c.day, d.day, 2, 'T', c4, d4);
    FieldIsInjective(c.hour, d.hour, 2, ':', c5, d5);
    FieldIsInjective(c.minute, d.minute, 2, ':', c6, d6);
    SplitAtDelimiter(Seconds(c.second, c.milli), Seconds(d.second, d.milli), 'Z', x, y);
    SecondsAreInjective(c.second, c.milli, d.second, d.milli);
  }

  /**
   A stored predecessor names exactly one key and is never the origin. The unique index on it can
   therefore stand for "this range has a successor already".
   */
  lemma PredecessorIsInjective(a: Key, b: Key)
    ensures Predecessor(a) == Predecessor(b) ==> a == b
    ensures Predecessor(a) != ORIGIN
  {
    var c, d := CivilOf(a.timestamp), CivilOf(b.timestamp);
    assert Predecessor(a)[|Decimal(c.year, 4)|] == '-';
    if Predecessor(a) == Predecessor(b) {
      FormatIsInjective(c, d, "\0" + a.waMessageId, "\0" + b.waMessageId);
      assert ("\0" + a.waMessageId)[1..] == a.waMessageId && ("\0" + b.waMessageId)[1..] == b.waMessageId;
      CivilRoundTrip(a.timestamp);
      CivilRoundTrip(b.timestamp);
    }
  }
}
