/**
 * Human-facing order identifiers (store/utils.py).
 *
 * The identifier is the decimal renderings of the year, month, day, user id,
 * hour and minute of the moment of checkout, concatenated in that order with
 * no separator and no zero padding. The clock is a parameter here.
 */
module OrderIds {

  /** The fields of a wall-clock reading. The generator reads the year, month,
      day, hour and minute; second and microsecond are carried to state that
      they do not matter. */
  datatype Timestamp = Timestamp(
    year: nat, month: nat, day: nat,
    hour: nat, minute: nat, second: nat, microsecond: nat)

  /** Width of the `order_id` column (store/models.py:73). */
  const OrderIdMaxLength: nat := 30

  predicate IsDigit(c: char) {
    '0' <= c <= '9'
  }

  predicate AllDigits(s: string) {
    forall i :: 0 <= i < |s| ==> IsDigit(s[i])
  }

  function Pow10(k: nat): (p: nat)
    ensures p >= 1
  {
    if k == 0 then 1 else 10 * Pow10(k - 1)
  }

  function DigitChar(d: nat): (c: char)
    requires d < 10
    ensures IsDigit(c)
  {
    ('0' as int + d) as char
  }

  function DigitValue(c: char): (d: nat)
    requires IsDigit(c)
    ensures d < 10
    ensures DigitChar(d) == c
  {
    c as int - '0' as int
  }

  /** Python's `str` of a non-negative integer: its decimal digits, most
      significant first, without leading zeros ("0" for zero). */
  function Decimal(n: nat): (r: string)
    ensures 1 <= |r|
    ensures AllDigits(r)
    ensures n > 0 ==> r[0] != '0'
    ensures |r| == 1 <==> n < 10
    decreases n
  {
    if n < 10 then [DigitChar(n)] else Decimal(n / 10) + [DigitChar(n % 10)]
  }

  /** Reads a string of decimal digits back as a number (the inverse of
      `Decimal` on its image). */
  function ParseDecimal(s: string): (n: nat)
    requires AllDigits(s)
    ensures n < Pow10(|s|)
  {
    if s == [] then 0 else ParseDecimal(s[..|s| - 1]) * 10 + DigitValue(s[|s| - 1])
  }

  /** `Decimal` loses nothing: reading its digits back gives the number. */
  lemma {:induction false} DecimalRoundTrip(n: nat)
    ensures ParseDecimal(Decimal(n)) == n
    decreases n
  {
    if n >= 10 {
      var r := Decimal(n);
      assert r == Decimal(n / 10) + [DigitChar(n % 10)];
      assert r[..|r| - 1] == Decimal(n / 10);
      DecimalRoundTrip(n / 10);
    }
  }

  /** A number below 10^k renders in at most k digits. */
  lemma {:induction false} DecimalLength(n: nat, k: nat)
    requires 1 <= k
    requires n < Pow10(k)
    ensures |Decimal(n)| <= k
    decreases n
  {
    if n >= 10 {
      assert Pow10(1) == 10;
      assert k >= 2;
      assert n / 10 < Pow10(k - 1);
      DecimalLength(n / 10, k - 1);
    }
  }

  /** `generate_order_id(user_id)` with `datetime.now()` passed in. */
  function GenerateOrderId(now: Timestamp, user: nat): (id: string)
    ensures AllDigits(id)
    ensures 6 <= |id|
  {
    Decimal(now.year) + Decimal(now.month) + Decimal(now.day)
    + Decimal(user) + Decimal(now.hour) + Decimal(now.minute)
  }

  /** Two readings that agree down to the minute. */
  predicate SameMinute(a: Timestamp, b: Timestamp) {
    a.year == b.year && a.month == b.month && a.day == b.day
    && a.hour == b.hour && a.minute == b.minute
  }

  /** The id has minute granularity: the same user checking out twice within
      one minute gets the same id, whatever the seconds and microseconds. */
  lemma SameMinuteSameId(a: Timestamp, b: Timestamp, user: nat)
    requires SameMinute(a, b)
    ensures GenerateOrderId(a, user) == GenerateOrderId(b, user)
  {
  }

  /** Without padding, month 1 / day 11 and month 11 / day 1 give the same
      id: the generator is not injective. */
  lemma {:induction false} MonthDayCollision(year: nat, user: nat, hour: nat, minute: nat)
    ensures GenerateOrderId(Timestamp(year, 1, 11, hour, minute, 0, 0), user)
         == GenerateOrderId(Timestamp(year, 11, 1, hour, minute, 0, 0), user)
  {
    var one := Decimal(1);
    assert Decimal(11) == one + one;
    var y := Decimal(year);
    assert y + one + (one + one) == y + (one + one) + one;
  }

  /** Without separators, user 1 at hour 12 and user 11 at hour 2 give the
      same id: two different users can collide in the same minute. */
  lemma {:induction false} UserHourCollision(year: nat, month: nat, day: nat, minute: nat)
    ensures GenerateOrderId(Timestamp(year, month, day, 12, minute, 0, 0), 1)
         == GenerateOrderId(Timestamp(year, month, day, 2, minute, 0, 0), 11)
  {
    var one := Decimal(1);
    var two := Decimal(2);
    assert Decimal(12) == one + two;
    assert Decimal(11) == one + one;
    var p := Decimal(year) + Decimal(month) + Decimal(day);
    assert p + one + (one + two) == p + (one + one) + two;
  }

  /** For a four-digit year, calendar-sized month, day, hour and minute, and a
      user id of at most 18 digits, the id fits the 30-character column. */
  lemma OrderIdFitsColumn(now: Timestamp, user: nat)
    requires now.year < 10000
    requires now.month < 100 && now.day < 100 && now.hour < 100 && now.minute < 100
    requires user < Pow10(18)
    ensures |GenerateOrderId(now, user)| <= OrderIdMaxLength
  {
    assert Pow10(2) == 100;
    assert Pow10(4) == 10000;
    DecimalLength(now.year, 4);
    DecimalLength(now.month, 2);
    DecimalLength(now.day, 2);
    DecimalLength(user, 18);
    DecimalLength(now.hour, 2);
    DecimalLength(now.minute, 2);
  }
}
