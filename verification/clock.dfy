/** Calendar readings and the two strftime formats the attendance code uses:
    "%Y-%m-%d" for the day a check is about, and "%Y-%m-%d %H:%M:%S" for the
    timestamp a new ledger row carries. */
module Clock {

  datatype Date = Date(year: nat, month: nat, day: nat)

  /** One reading of the local wall clock. */
  datatype DateTime = DateTime(date: Date, hour: nat, minute: nat, second: nat)

  /** Number of characters in "%Y-%m-%d" for a four-digit year. */
  const DateWidth: nat := 10

  predicate IsLeapYear(y: nat) {
    (y % 4 == 0 && y % 100 != 0) || y % 400 == 0
  }

  function DaysInMonth(y: nat, m: nat): nat
    requires 1 <= m <= 12
  {
    if m == 2 then (if IsLeapYear(y) then 29 else 28)
    else if m == 4 || m == 6 || m == 9 || m == 11 then 30
    else 31
  }

  /** A calendar day whose year prints as exactly four digits. */
  predicate ValidDate(d: Date) {
    1000 <= d.year <= 9999 && 1 <= d.month <= 12 && 1 <= d.day <= DaysInMonth(d.year, d.month)
  }

  predicate Valid(t: DateTime) {
    ValidDate(t.date) && t.hour < 24 && t.minute < 60 && t.second < 60
  }

  function Digit(n: nat): char
    requires n < 10
  {
    ('0' as int + n) as char
  }

  /** Two-digit zero-padded decimal, as %m, %d, %H, %M and %S print. */
  function Pad2(n: nat): (s: string)
    requires n < 100
    ensures |s| == 2
  {
    [Digit(n / 10), Digit(n % 10)]
  }

  /** Four-digit zero-padded decimal, as %Y prints a year from 1000 to 9999. */
  function Pad4(n: nat): (s: string)
    requires n < 10000
    ensures |s| == 4
  {
    Pad2(n / 100) + Pad2(n % 100)
  }

  /** The day as "%Y-%m-%d". */
  function DateString(d: Date): (s: string)
    requires ValidDate(d)
    ensures |s| == DateWidth
  {
    Pad4(d.year) + "-" + Pad2(d.month) + "-" + Pad2(d.day)
  }

  /** The reading as "%Y-%m-%d %H:%M:%S"; its first DateWidth characters are the day. */
  function Timestamp(t: DateTime): (s: string)
    requires Valid(t)
    ensures |s| == 19
    ensures s[..DateWidth] == DateString(t.date)
  {
    DateString(t.date) + " " + Pad2(t.hour) + ":" + Pad2(t.minute) + ":" + Pad2(t.second)
  }

  lemma Pad2Injective(a: nat, b: nat)
    requires a < 100 && b < 100
    ensures Pad2(a) == Pad2(b) <==> a == b
  {
    if Pad2(a) == Pad2(b) {
      assert Digit(a / 10) == Pad2(a)[0] == Pad2(b)[0] == Digit(b / 10);
      assert Digit(a % 10) == Pad2(a)[1] == Pad2(b)[1] == Digit(b % 10);
    }
  }

  lemma Pad4Injective(a: nat, b: nat)
    requires a < 10000 && b < 10000
    ensures Pad4(a) == Pad4(b) <==> a == b
  {
    if Pad4(a) == Pad4(b) {
      assert Pad4(a)[..2] == Pad2(a / 100) && Pad4(b)[..2] == Pad2(b / 100);
      assert Pad4(a)[2..] == Pad2(a % 100) && Pad4(b)[2..] == Pad2(b % 100);
      Pad2Injective(a / 100, b / 100);
      Pad2Injective(a % 100, b % 100);
    }
  }

  lemma DateStringFields(d: Date)
    requires ValidDate(d)
    ensures DateString(d)[..4] == Pad4(d.year)
    ensures DateString(d)[5..7] == Pad2(d.month)
    ensures DateString(d)[8..] == Pad2(d.day)
  {
    var y, m := Pad4(d.year), Pad2(d.month);
    assert DateString(d) == (y + "-" + m + "-") + Pad2(d.day);
    assert (y + "-" + m + "-")[5..7] == m;
  }

  /** Two days print the same "%Y-%m-%d" string exactly when they are the same day,
      so a date prefix identifies the calendar day. */
  lemma DateStringInjective(a: Date, b: Date)
    requires ValidDate(a) && ValidDate(b)
    ensures DateString(a) == DateString(b) <==> a == b
  {
    if DateString(a) == DateString(b) {
      DateStringFields(a);
      DateStringFields(b);
      Pad4Injective(a.year, b.year);
      Pad2Injective(a.month, b.month);
      Pad2Injective(a.day, b.day);
    }
  }
}
