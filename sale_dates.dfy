/**
  Sale timestamps. save_sale stamps every sale row with the local clock,
  rendered as "%Y-%m-%d %H:%M:%S"; the sales report compares the day part of
  that text with the bounds the user typed, as TEXT under SQLite's BINARY
  collation, i.e. lexicographically by code point.
 */
module SaleDates {

  /** A reading of the local clock, as datetime.now() yields it. */
  datatype DateTime = DateTime(year: int, month: int, day: int, hour: int, minute: int, second: int)

  predicate IsLeapYear(y: int) {
    y % 4 == 0 && (y % 100 != 0 || y % 400 == 0)
  }

  function DaysInMonth(y: int, m: int): (n: int)
    requires 1 <= m <= 12
    ensures 28 <= n <= 31
    ensures n == 29 <==> m == 2 && IsLeapYear(y)
  {
    if m == 2 then (if IsLeapYear(y) then 29 else 28)
    else if m == 4 || m == 6 || m == 9 || m == 11 then 30
    else 31
  }

  /** A clock reading the system clock can produce (four-digit years only). */
  predicate ValidDateTime(dt: DateTime) {
    && 1000 <= dt.year <= 9999
    && 1 <= dt.month <= 12
    && 1 <= dt.day <= DaysInMonth(dt.year, dt.month)
    && 0 <= dt.hour < 24
    && 0 <= dt.minute < 60
    && 0 <= dt.second < 60
  }

  /** The readings datetime.now() can yield, and so the only stamps save_sale writes. */
  type ClockReading = dt: DateTime | ValidDateTime(dt) witness DateTime(2000, 1, 1, 0, 0, 0)

  /** Calendar order on the day part of two readings (time of day ignored). */
  predicate DayLe(a: DateTime, b: DateTime) {
    a.year < b.year || (a.year == b.year && (a.month < b.month || (a.month == b.month && a.day <= b.day)))
  }

  function Pow10(w: nat): nat {
    if w == 0 then 1 else 10 * Pow10(w - 1)
  }

  function DigitChar(d: int): char
    requires 0 <= d < 10
  {
    ('0' as int + d) as char
  }

  /** The last `width` decimal digits of n, zero-padded: strftime's %Y, %m, %d, ... */
  function Digits(n: int, width: nat): (s: string)
    decreases width
    ensures |s| == width
    ensures forall i :: 0 <= i < |s| ==> '0' <= s[i] <= '9'
  {
    if width == 0 then [] else Digits(n / 10, width - 1) + [DigitChar(n % 10)]
  }

  /** "%Y-%m-%d" */
  function FormatDay(dt: DateTime): string {
    Digits(dt.year, 4) + "-" + Digits(dt.month, 2) + "-" + Digits(dt.day, 2)
  }

  /** "%H:%M:%S" */
  function FormatTime(dt: DateTime): string {
    Digits(dt.hour, 2) + ":" + Digits(dt.minute, 2) + ":" + Digits(dt.second, 2)
  }

  /** The TEXT stored in sales.sale_date: its first ten characters, which is
      what SQLite's DATE() returns for text of this form, are the day. */
  function FormatStamp(dt: DateTime): (s: string)
    ensures |s| == 19 && s[10] == ' '
    ensures s[..10] == FormatDay(dt)
  {
    FormatDay(dt) + " " + FormatTime(dt)
  }

  /** a <= b under SQLite's BINARY collation: compare code point by code
      point, and a proper prefix sorts first. */
  predicate LexLe(a: string, b: string)
    decreases |a|
  {
    if a == [] then true
    else if b == [] then false
    else if a[0] != b[0] then a[0] < b[0]
    else LexLe(a[1..], b[1..])
  }

  lemma {:induction false} LexLeRefl(a: string)
    ensures LexLe(a, a)
    decreases |a|
  {
    if a != [] {
      LexLeRefl(a[1..]);
    }
  }

  lemma {:induction false} LexLeTrans(a: string, b: string, c: string)
    requires LexLe(a, b) && LexLe(b, c)
    ensures LexLe(a, c)
    decreases |a|
  {
    if a != [] && b != [] && c != [] && a[0] == b[0] && b[0] == c[0] {
      LexLeTrans(a[1..], b[1..], c[1..]);
    }
  }

  /** Comparing two texts that start with equally long parts: the first
      parts decide unless they are equal. */
  lemma {:induction false} LexLeConcat(x1: string, y1: string, x2: string, y2: string)
    requires |x1| == |x2|
    ensures LexLe(x1 + y1, x2 + y2) == if x1 == x2 then LexLe(y1, y2) else LexLe(x1, x2)
    decreases |x1|
  {
    if x1 == [] {
      assert x1 + y1 == y1 && x2 + y2 == y2;
    } else {
      assert (x1 + y1)[0] == x1[0] && (x2 + y2)[0] == x2[0];
      assert (x1 + y1)[1..] == x1[1..] + y1;
      assert (x2 + y2)[1..] == x2[1..] + y2;
      if x1[0] == x2[0] {
        LexLeConcat(x1[1..], y1, x2[1..], y2);
        assert x1 == [x1[0]] + x1[1..] && x2 == [x2[0]] + x2[1..];
      }
    }
  }

  lemma {:induction false} DigitsOrder(n: int, m: int, width: nat)
    requires 0 <= n < Pow10(width) && 0 <= m < Pow10(width)
    ensures LexLe(Digits(n, width), Digits(m, width)) <==> n <= m
    decreases width
  {
    if width > 0 {
      var hn, hm := Digits(n / 10, width - 1), Digits(m / 10, width - 1);
      var cn, cm := DigitChar(n % 10), DigitChar(m % 10);
      DigitsOrder(n / 10, m / 10, width - 1);
      LexLeConcat(hn, [cn], hm, [cm]);
      if hn == hm {
        LexLeRefl(hn);
        DigitsOrder(m / 10, n / 10, width - 1);
        assert n / 10 == m / 10;
        assert LexLe([cn], [cm]) <==> cn <= cm;
        assert cn as int == '0' as int + n % 10 && cm as int == '0' as int + m % 10;
      }
    }
  }

  lemma DigitsInjective(n: int, m: int, width: nat)
    requires 0 <= n < Pow10(width) && 0 <= m < Pow10(width)
    ensures Digits(n, width) == Digits(m, width) <==> n == m
  {
    if Digits(n, width) == Digits(m, width) {
      LexLeRefl(Digits(n, width));
      DigitsOrder(n, m, width);
      DigitsOrder(m, n, width);
    }
  }

  /** For readings the clock can produce, comparing the "%Y-%m-%d" texts
      is comparing the calendar days. */
  lemma DayTextOrder(a: DateTime, b: DateTime)
    requires ValidDateTime(a) && ValidDateTime(b)
    ensures LexLe(FormatDay(a), FormatDay(b)) <==> DayLe(a, b)
  {
    assert Pow10(2) == 100 && Pow10(4) == 10000 by {
      assert Pow10(1) == 10;
      assert Pow10(3) == 1000;
    }
    var ya, yb := Digits(a.year, 4), Digits(b.year, 4);
    var ma, mb := Digits(a.month, 2), Digits(b.month, 2);
    var da, db := Digits(a.day, 2), Digits(b.day, 2);
    assert FormatDay(a) == ya + ("-" + (ma + ("-" + da)));
    assert FormatDay(b) == yb + ("-" + (mb + ("-" + db)));
    LexLeConcat(ya, "-" + (ma + ("-" + da)), yb, "-" + (mb + ("-" + db)));
    LexLeConcat("-", ma + ("-" + da), "-", mb + ("-" + db));
    LexLeConcat(ma, "-" + da, mb, "-" + db);
    LexLeConcat("-", da, "-", db);
    DigitsOrder(a.year, b.year, 4);
    DigitsInjective(a.year, b.year, 4);
    DigitsOrder(a.month, b.month, 2);
    DigitsInjective(a.month, b.month, 2);
    DigitsOrder(a.day, b.day, 2);
  }
}
