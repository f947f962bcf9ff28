/**
 * Calendar dates and date-times as the MySQL session sees them (one time
 * zone), with the arithmetic the queries use: `DATE_ADD(d, INTERVAL n DAY)`,
 * `DATE_SUB(d, INTERVAL k MONTH)`, `LAST_DAY`, and the 'YYYY-MM-DD' form.
 */
module Dates {
  import opened Js

  /** A proleptic Gregorian calendar date. */
  datatype Date = Date(year: int, month: int, day: int)

  /** A DATETIME: a date and the second of that day (0 .. 86399). */
  datatype Instant = Instant(date: Date, second: int)

  predicate IsLeap(y: int) {
    (y % 4 == 0 && y % 100 != 0) || y % 400 == 0
  }

  function DaysInMonth(y: int, m: int): (n: int)
    requires 1 <= m <= 12
    ensures 28 <= n <= 31
    ensures m == 2 ==> (n == 29 <==> IsLeap(y))
  {
    if m == 2 then (if IsLeap(y) then 29 else 28)
    else if m == 4 || m == 6 || m == 9 || m == 11 then 30
    else 31
  }

  predicate ValidDate(d: Date) {
    1 <= d.month <= 12 && 1 <= d.day <= DaysInMonth(d.year, d.month)
  }

  /** The years a DATE column holds and `toISOString` writes with four digits. */
  predicate InRange(d: Date) {
    0 <= d.year <= 9999
  }

  predicate ValidInstant(t: Instant) {
    ValidDate(t.date) && 0 <= t.second < 86400
  }

  /** Chronological order on dates. */
  predicate DateLe(a: Date, b: Date) {
    a.year < b.year
    || (a.year == b.year && (a.month < b.month || (a.month == b.month && a.day <= b.day)))
  }

  predicate DateLt(a: Date, b: Date) {
    DateLe(a, b) && a != b
  }

  /** Chronological order on date-times. */
  predicate InstantLe(a: Instant, b: Instant) {
    DateLt(a.date, b.date) || (a.date == b.date && a.second <= b.second)
  }

  predicate InstantLt(a: Instant, b: Instant) {
    InstantLe(a, b) && a != b
  }

  /** `DATE` of a day's first second, the value a DATE compares as against a DATETIME. */
  function Midnight(d: Date): (t: Instant)
    ensures t.date == d && (forall u: Instant :: u.date == d && u.second >= 0 ==> InstantLe(t, u))
  {
    Instant(d, 0)
  }

  function NextDay(d: Date): (r: Date)
    requires ValidDate(d)
    ensures ValidDate(r) && DateLt(d, r)
  {
    if d.day < DaysInMonth(d.year, d.month) then Date(d.year, d.month, d.day + 1)
    else if d.month < 12 then Date(d.year, d.month + 1, 1)
    else Date(d.year + 1, 1, 1)
  }

  function PrevDay(d: Date): (r: Date)
    requires ValidDate(d)
    ensures ValidDate(r) && DateLt(r, d)
  {
    if d.day > 1 then Date(d.year, d.month, d.day - 1)
    else if d.month > 1 then Date(d.year, d.month - 1, DaysInMonth(d.year, d.month - 1))
    else Date(d.year - 1, 12, 31)
  }

  /** `DATE_ADD(d, INTERVAL n DAY)` (a negative `n` goes back). */
  function AddDays(d: Date, n: int): (r: Date)
    requires ValidDate(d)
    ensures ValidDate(r)
    ensures n == 0 ==> r == d
    ensures n > 0 ==> DateLt(d, r)
    ensures n < 0 ==> DateLt(r, d)
    decreases if n < 0 then -n else n
  {
    if n == 0 then d
    else if n > 0 then AddDays(NextDay(d), n - 1)
    else AddDays(PrevDay(d), n + 1)
  }

  /** `DATE_ADD(t, INTERVAL n DAY)` on a date-time: same time of day, `n` days on. */
  function AddDaysAt(t: Instant, n: int): (r: Instant)
    requires ValidInstant(t)
    ensures ValidInstant(r) && r.second == t.second
    ensures n > 0 ==> InstantLt(t, r)
  {
    Instant(AddDays(t.date, n), t.second)
  }

  /** The number of days from 0000-03-01 to `d` (days-from-civil). */
  function DayNumber(d: Date): int
    requires ValidDate(d)
  {
    var y := if d.month <= 2 then d.year - 1 else d.year;
    var mp := if d.month > 2 then d.month - 3 else d.month + 9;
    365 * y + y / 4 - y / 100 + y / 400 + (153 * mp + 2) / 5 + d.day - 1
  }

  /** Seconds since 0000-03-01 00:00:00, so that intervals can be measured. */
  function Seconds(t: Instant): int
    requires ValidInstant(t)
  {
    DayNumber(t.date) * 86400 + t.second
  }

  /** `LAST_DAY` of the month `y-m`. */
  function LastDay(y: int, m: int): (r: Date)
    requires 1 <= m <= 12
    ensures ValidDate(r) && r.year == y && r.month == m
    ensures forall x :: ValidDate(x) && x.year == y && x.month == m ==> DateLe(x, r)
  {
    Date(y, m, DaysInMonth(y, m))
  }

  /** `DATE_SUB(d, INTERVAL k MONTH)`: `k` months back, the day clamped to the
      length of the target month (2025-08-31 minus 6 months is 2025-02-28). */
  function SubMonths(d: Date, k: nat): (r: Date)
    requires ValidDate(d)
    ensures ValidDate(r)
    ensures r.year * 12 + r.month == d.year * 12 + d.month - k
    ensures r.day == if d.day <= DaysInMonth(r.year, r.month) then d.day else DaysInMonth(r.year, r.month)
  {
    var total := d.year * 12 + (d.month - 1) - k;
    var y := total / 12;
    var m := total % 12 + 1;
    var last := DaysInMonth(y, m);
    Date(y, m, if d.day <= last then d.day else last)
  }

  // ------------------------------------------------------------------
  // The 'YYYY-MM-DD' form
  // ------------------------------------------------------------------

  /** `String(n).padStart(w, '0')`. */
  function Pad(n: nat, w: nat): (r: string)
    ensures AllDigits(r) && |r| >= w
  {
    PadStart(NatToString(n), w, '0')
  }

  /** A number below `10^w` pads to exactly `w` digits. */
  lemma PadLength(n: nat, w: nat)
    requires w >= 1 && n < Pow10(w)
    ensures |Pad(n, w)| == w
  {
    NatToStringLength(n, w);
  }

  /** A date written as 'YYYY-MM-DD'. */
  function DateString(d: Date): (s: string)
    requires ValidDate(d) && InRange(d)
    ensures |s| == 10 && s[..7] == MonthKey(d.year, d.month)
  {
    PadLength(d.day, 2);
    var key := MonthKey(d.year, d.month);
    var dd := Pad(d.day, 2);
    JoinedAt(key, '-', dd);
    key + "-" + dd
  }

  /** The 'YYYY-MM' key of a month. */
  function MonthKey(y: nat, m: nat): (s: string)
    requires y <= 9999 && 1 <= m <= 12
    ensures |s| == 7 && s[4] == '-'
    ensures s[..4] == Pad(y, 4) && s[5..] == Pad(m, 2)
  {
    PadLength(y, 4);
    PadLength(m, 2);
    var yy := Pad(y, 4);
    var mm := Pad(m, 2);
    JoinedAt(yy, '-', mm);
    yy + "-" + mm
  }

  /** The first seven characters of a date's string form are its month's key. */
  lemma MonthKeyIsPrefix(d: Date)
    requires ValidDate(d) && InRange(d)
    ensures Prefix(DateString(d), 7) == MonthKey(d.year, d.month)
  {
  }

  /** Two in-range months share a key only when they are the same month. */
  lemma MonthKeyInjective(y1: nat, m1: nat, y2: nat, m2: nat)
    requires y1 <= 9999 && 1 <= m1 <= 12 && y2 <= 9999 && 1 <= m2 <= 12
    requires MonthKey(y1, m1) == MonthKey(y2, m2)
    ensures y1 == y2 && m1 == m2
  {
    PadValue(y1, 4);
    PadValue(y2, 4);
    PadValue(m1, 2);
    PadValue(m2, 2);
  }

  /** Zero padding does not change the value a numeral denotes. */
  lemma {:induction false} LeadingZeros(k: nat, s: string)
    requires AllDigits(s)
    ensures AllDigits(Repeat('0', k) + s)
    ensures DigitsValue(Repeat('0', k) + s) == DigitsValue(s)
    decreases |s|
  {
    var t := Repeat('0', k) + s;
    assert AllDigits(t) by {
      forall i | 0 <= i < |t| ensures IsDigit(t[i]) {
        if i < k { assert t[i] == '0'; } else { assert t[i] == s[i - k]; }
      }
    }
    if s == [] {
      assert t == Repeat('0', k);
      ZerosValue(k);
    } else {
      var s' := s[..|s| - 1];
      LeadingZeros(k, s');
      assert t[..|t| - 1] == Repeat('0', k) + s';
      assert t[|t| - 1] == s[|s| - 1];
    }
  }

  lemma {:induction false} ZerosValue(k: nat)
    ensures AllDigits(Repeat('0', k)) && DigitsValue(Repeat('0', k)) == 0
  {
    if k > 0 {
      var z := Repeat('0', k);
      ZerosValue(k - 1);
      assert z[..k - 1] == Repeat('0', k - 1);
    }
  }

  /** A padded numeral still denotes its number. */
  lemma PadValue(n: nat, w: nat)
    ensures DigitsValue(Pad(n, w)) == n
  {
    var s := NatToString(n);
    DigitsValueOfNatToString(n);
    var p := Pad(n, w);
    if |s| < w {
      var z := Repeat('0', w - |s|) + s;
      assert p == z;
      LeadingZeros(w - |s|, s);
      assert DigitsValue(z) == n;
    } else {
      assert p == s;
    }
  }
}
