/** Naive timestamps as Python's `datetime` holds them, and the decimal
    renderings that `strftime` gives their fields. Both collectors take the
    clock reading as an input of this type. */
module DateTimes {

  type Year = y: int | 1 <= y <= 9999 witness 1
  type Month = m: int | 1 <= m <= 12 witness 1
  /** Any day 1..31 in any month: `Date` is wider than the calendar (it admits
      February 31), and nothing here depends on month lengths. */
  type Day = d: int | 1 <= d <= 31 witness 1
  type Hour = h: int | 0 <= h < 24
  type Minute = m: int | 0 <= m < 60
  type Second = s: int | 0 <= s < 60
  type Microsecond = u: int | 0 <= u < 1000000

  datatype Date = Date(year: Year, month: Month, day: Day)

  datatype DateTime = DateTime(date: Date, hour: Hour, minute: Minute, second: Second, microsecond: Microsecond)

  /** `datetime.combine(d, time.min) + timedelta(hours=h)`, for an hour of that same day. */
  function StartOfHour(d: Date, h: Hour): DateTime {
    DateTime(d, h, 0, 0, 0)
  }

  /** `t.replace(minute=0, second=0, microsecond=0)`. */
  function TruncateToHour(t: DateTime): DateTime {
    t.(minute := 0, second := 0, microsecond := 0)
  }

  /** Two timestamps lie in the same calendar hour. */
  predicate SameHour(a: DateTime, b: DateTime) {
    a.date == b.date && a.hour == b.hour
  }

  function Digit(d: nat): (c: char)
    requires d < 10
    ensures '0' <= c <= '9'
  {
    (('0' as int) + d) as char
  }

  /** The unpadded decimal digits of `n` (what `%Y` prints with the C library on Linux). */
  function Decimal(n: nat): (s: string)
    ensures 1 <= |s|
    ensures |s| == 1 <==> n < 10
    decreases n
  {
    if n < 10 then [Digit(n)] else Decimal(n / 10) + [Digit(n % 10)]
  }

  /** Two zero-padded digits, as `%m`, `%d` and `%H` print them. */
  function Pad2(n: nat): (s: string)
    requires n < 100
    ensures |s| == 2
  {
    [Digit(n / 10), Digit(n % 10)]
  }

  lemma {:induction false} DecimalInjective(a: nat, b: nat)
    requires Decimal(a) == Decimal(b)
    ensures a == b
    decreases a
  {
    if 10 <= a {
      var sa, sb := Decimal(a), Decimal(b);
      assert sa[..|sa| - 1] == Decimal(a / 10) && sb[..|sb| - 1] == Decimal(b / 10);
      DecimalInjective(a / 10, b / 10);
      assert Digit(a % 10) == sa[|sa| - 1] == Digit(b % 10);
    }
  }

  lemma Pad2Injective(a: nat, b: nat)
    requires a < 100 && b < 100
    ensures Pad2(a) == Pad2(b) <==> a == b
  {
    if Pad2(a) == Pad2(b) {
      assert Digit(a / 10) == Pad2(a)[0] == Digit(b / 10);
      assert Digit(a % 10) == Pad2(a)[1] == Digit(b % 10);
    }
  }
}
