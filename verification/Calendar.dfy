/** UTC days and their `YYYY-MM-DD` names, in the proleptic Gregorian calendar. */
module Calendar {
  import opened Sorting

  datatype Date = Date(year: nat, month: nat, day: nat)

  predicate IsLeap(year: nat) {
    year % 4 == 0 && (year % 100 != 0 || year % 400 == 0)
  }

  function DaysIn(year: nat, month: nat): nat {
    if month == 2 then (if IsLeap(year) then 29 else 28)
    else if month in {4, 6, 9, 11} then 30
    else 31
  }

  function Next(d: Date): Date {
    if d.day < DaysIn(d.year, d.month) then d.(day := d.day + 1)
    else if d.month < 12 then Date(d.year, d.month + 1, 1)
    else Date(d.year + 1, 1, 1)
  }

  /** The date `n` days after the epoch. */
  function DateOf(n: nat): (d: Date)
    ensures 1 <= d.month <= 12 && 1 <= d.day <= 31
  {
    if n == 0 then Date(1970, 1, 1) else Next(DateOf(n - 1))
  }

  predicate Before(a: Date, b: Date) {
    a.year < b.year || (a.year == b.year && (a.month < b.month || (a.month == b.month && a.day < b.day)))
  }

  lemma {:induction false} DatesAdvance(m: nat, n: nat)
    requires m < n
    ensures Before(DateOf(m), DateOf(n))
  {
    if m < n - 1 {
      DatesAdvance(m, n - 1);
    }
  }

  /** The day a date is, by counting: whole years from March to February with their leap days, whole
      months from March on, and days, less the days from the year 0 to the epoch. */
  function DayNumber(d: Date): int
    requires d.year > 0
  {
    var y := if d.month <= 2 then d.year - 1 else d.year;
    365 * y + y / 4 - y / 100 + y / 400 + DaysFromMarch(d.month) + d.day - 1 - 719_468
  }

  function DaysFromMarch(month: nat): nat {
    (153 * ((month + 9) % 12) + 2) / 5
  }

  lemma MonthLengths()
    ensures DaysFromMarch(3) == 0 && DaysFromMarch(4) == 31 && DaysFromMarch(5) == 61 && DaysFromMarch(6) == 92
    ensures DaysFromMarch(7) == 122 && DaysFromMarch(8) == 153 && DaysFromMarch(9) == 184
    ensures DaysFromMarch(10) == 214 && DaysFromMarch(11) == 245 && DaysFromMarch(12) == 275
    ensures DaysFromMarch(1) == 306 && DaysFromMarch(2) == 337
  {
  }

  predicate IsDate(d: Date) {
    d.year > 0 && 1 <= d.month <= 12 && 1 <= d.day <= DaysIn(d.year, d.month)
  }

  lemma LeapDays(y: nat)
    requires y > 0
    ensures y / 4 - (y - 1) / 4 == (if y % 4 == 0 then 1 else 0)
    ensures y / 100 - (y - 1) / 100 == (if y % 100 == 0 then 1 else 0)
    ensures y / 400 - (y - 1) / 400 == (if y % 400 == 0 then 1 else 0)
    ensures y % 400 == 0 ==> y % 100 == 0
    ensures y % 100 == 0 ==> y % 4 == 0
  {
  }

  lemma NextMonth(year: nat, month: nat)
    requires year > 0 && 1 <= month < 12 && month != 2
    ensures DaysFromMarch(month + 1) == DaysFromMarch(month) + DaysIn(year, month)
  {
    MonthLengths();
  }

  lemma NextIsNext(d: Date)
    requires IsDate(d)
    ensures IsDate(Next(d)) && DayNumber(Next(d)) == DayNumber(d) + 1
  {
    if d.day == DaysIn(d.year, d.month) {
      MonthLengths();
      if d.month == 2 {
        LeapDays(d.year);
      } else if d.month < 12 {
        NextMonth(d.year, d.month);
      }
    }
  }

  /** Counting from the epoch gives dates of the Gregorian calendar, each the day it is. */
  lemma {:induction false} DateIsOfDay(n: nat)
    ensures IsDate(DateOf(n)) && DayNumber(DateOf(n)) == n
  {
    if n > 0 {
      DateIsOfDay(n - 1);
      NextIsNext(DateOf(n - 1));
    }
  }

  // ---- Names ----

  function DecimalDigit(n: nat): char
    requires n < 10
  {
    ('0' as int + n) as char
  }

  /** `n` in `width` decimal digits, zero-padded. */
  function Padded(n: nat, width: nat): (s: string)
    ensures |s| == width
  {
    if width == 0 then [] else Padded(n / 10, width - 1) + [DecimalDigit(n % 10)]
  }

  function Power(width: nat): nat {
    if width == 0 then 1 else 10 * Power(width - 1)
  }

  /** The number that a text of decimal digits spells. */
  function Spelt(s: string): nat {
    if s == [] then 0
    else
      var c := s[|s| - 1];
      10 * Spelt(s[..|s| - 1]) + (if '0' <= c <= '9' then c as int - '0' as int else 0)
  }

  lemma {:induction false} PaddedSpells(n: nat, width: nat)
    requires n < Power(width)
    ensures Spelt(Padded(n, width)) == n
    ensures forall i | 0 <= i < width :: '0' <= Padded(n, width)[i] <= '9'
  {
    if width > 0 {
      PaddedSpells(n / 10, width - 1);
      assert Padded(n, width)[..width - 1] == Padded(n / 10, width - 1);
    }
  }

  const EXTENSION := ".jsonl"

  /** Days whose year has four digits; later years would be written with a sign. */
  type Day = n: nat | DateOf(n).year <= 9999 witness 0

  function FileName(day: Day): string {
    var d := DateOf(day);
    Padded(d.year, 4) + "-" + Padded(d.month, 2) + "-" + Padded(d.day, 2) + EXTENSION
  }

  /** `a` comes strictly before `b` at the first place where they differ. */
  ghost predicate Precedes(a: string, b: string) {
    Leq(a, b) && a != b
  }

  lemma {:induction false} LeqConcat(a: string, b: string, s: string, t: string)
    requires |a| == |b|
    ensures Precedes(a, b) ==> Precedes(a + s, b + t)
    ensures Precedes(s, t) ==> Precedes(a + s, a + t)
  {
    if a != [] {
      LeqConcat(a[1..], b[1..], s, t);
      assert (a + s)[1..] == a[1..] + s && (b + t)[1..] == b[1..] + t && (a + t)[1..] == a[1..] + t;
      assert a == [a[0]] + a[1..] && b == [b[0]] + b[1..];
      assert a + s == [a[0]] + (a[1..] + s);
    } else {
      assert a + s == s && a + t == t;
    }
    if a + s == b + t {
      assert a == (a + s)[..|a|] == (b + t)[..|b|] == b;
    }
    if a + s == a + t {
      assert s == (a + s)[|a|..] == (a + t)[|a|..] == t;
    }
  }

  lemma {:induction false} PaddedOrder(m: nat, n: nat, width: nat)
    requires m < n < Power(width)
    ensures Precedes(Padded(m, width), Padded(n, width))
  {
    if m / 10 == n / 10 {
      assert Precedes([DecimalDigit(m % 10)], [DecimalDigit(n % 10)]);
      LeqConcat(Padded(m / 10, width - 1), Padded(n / 10, width - 1), [DecimalDigit(m % 10)], [DecimalDigit(n % 10)]);
    } else {
      PaddedOrder(m / 10, n / 10, width - 1);
      LeqConcat(Padded(m / 10, width - 1), Padded(n / 10, width - 1), [DecimalDigit(m % 10)], [DecimalDigit(n % 10)]);
    }
  }

  /** File names sort as their days do. */
  lemma NamesAdvance(m: Day, n: Day)
    requires m < n
    ensures Precedes(FileName(m), FileName(n))
  {
    var a, b := DateOf(m), DateOf(n);
    DatesAdvance(m, n);
    var ya, yb := Padded(a.year, 4), Padded(b.year, 4);
    var ma, mb := Padded(a.month, 2), Padded(b.month, 2);
    var da, db := Padded(a.day, 2), Padded(b.day, 2);
    assert FileName(m) == ya + ("-" + (ma + ("-" + (da + EXTENSION))));
    assert FileName(n) == yb + ("-" + (mb + ("-" + (db + EXTENSION))));
    if a.year < b.year {
      PaddedOrder(a.year, b.year, 4);
    } else if a.month < b.month {
      PaddedOrder(a.month, b.month, 2);
    } else {
      PaddedOrder(a.day, b.day, 2);
    }
    LeqConcat(da, db, EXTENSION, EXTENSION);
    LeqConcat("-", "-", da + EXTENSION, db + EXTENSION);
    LeqConcat(ma, mb, "-" + (da + EXTENSION), "-" + (db + EXTENSION));
    LeqConcat("-", "-", ma + ("-" + (da + EXTENSION)), mb + ("-" + (db + EXTENSION)));
    LeqConcat(ya, yb, "-" + (ma + ("-" + (da + EXTENSION))), "-" + (mb + ("-" + (db + EXTENSION))));
  }

  predicate IsDigits(s: string) {
    forall i | 0 <= i < |s| :: '0' <= s[i] <= '9'
  }

  /** A file name spells its day as `YYYY-MM-DD.jsonl`. */
  lemma NameSpellsDay(n: Day)
    ensures var s, d := FileName(n), DateOf(n);
            && |s| == 16 && s[4] == '-' && s[7] == '-' && s[10..] == ".jsonl"
            && IsDigits(s[..4]) && Spelt(s[..4]) == d.year
            && IsDigits(s[5..7]) && Spelt(s[5..7]) == d.month
            && IsDigits(s[8..10]) && Spelt(s[8..10]) == d.day
  {
    var s, d := FileName(n), DateOf(n);
    PaddedSpells(d.year, 4);
    PaddedSpells(d.month, 2);
    PaddedSpells(d.day, 2);
    assert s[..4] == Padded(d.year, 4) && s[5..7] == Padded(d.month, 2) && s[8..10] == Padded(d.day, 2);
  }
}
