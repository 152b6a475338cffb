/** The day computation every decoder repeats:
    `int((time_to_expire - current_time) / 86400)`, where `current_time` is
    midnight of `date.today()`. The clock is a reading in seconds since the
    epoch on a UTC host. */
module Expiry {
  import opened Results
  import NotAfter
  import opened Calendar

  function Abs(x: int): nat {
    if x < 0 then -x else x
  }

  /** `int(diff / 86400)` for an integer number of seconds `diff`: the
      quotient truncated toward zero, as Python's `int()` truncates the float
      quotient. */
  function WholeDays(diff: int): (d: int)
    ensures Abs(d) * SecondsPerDay <= Abs(diff) < (Abs(d) + 1) * SecondsPerDay
    ensures d == 0 || (d > 0 <==> diff > 0)
  {
    if diff >= 0 then diff / SecondsPerDay else -((-diff) / SecondsPerDay)
  }

  /** The two clauses of `WholeDays`'s contract pin its result down. */
  lemma WholeDaysUnique(diff: int, d: int)
    requires Abs(d) * SecondsPerDay <= Abs(diff) < (Abs(d) + 1) * SecondsPerDay
    requires d == 0 || (d > 0 <==> diff > 0)
    ensures d == WholeDays(diff)
  {
  }

  lemma WholeDaysMonotone(diff: int, diff': int)
    requires diff <= diff'
    ensures WholeDays(diff) <= WholeDays(diff')
  {
  }

  /** `date.today()` as a day index: the day whose midnight is at or before
      the reading. */
  function Today(now: int): int {
    now / SecondsPerDay
  }

  /** `date.today().strftime('%s')`: the instant of midnight that begins the
      current day. */
  function Midnight(now: int): (r: int)
    ensures r % SecondsPerDay == 0
    ensures r <= now < r + SecondsPerDay
  {
    Today(now) * SecondsPerDay
  }

  /** Whole days from today's midnight to `expiry`, truncated toward zero. */
  function DaysLeft(expiry: int, now: int): (d: int)
    ensures Abs(d) * SecondsPerDay <= Abs(expiry - Midnight(now)) < (Abs(d) + 1) * SecondsPerDay
    ensures d == 0 || (d > 0 <==> expiry > Midnight(now))
  {
    WholeDays(expiry - Midnight(now))
  }

  /** The shared expiry extractor: parse `notAfter`, then count days. `None`
      where `strptime` raises. */
  function DaysToExpire(notAfter: string, now: int): (r: Option<int>)
    ensures r.Some? <==> NotAfter.Parse(notAfter).Some?
    ensures r.Some? ==> Abs(r.value) * SecondsPerDay
                          <= Abs(NotAfter.Parse(notAfter).value - Midnight(now))
                          < (Abs(r.value) + 1) * SecondsPerDay
    ensures r.Some? ==> (r.value == 0 || (r.value > 0 <==> NotAfter.Parse(notAfter).value > Midnight(now)))
  {
    match NotAfter.Parse(notAfter)
    case Some(expiry) => Some(DaysLeft(expiry, now))
    case None => None
  }

  // ---------------------------------------------------------------------
  // Properties of the day count.

  /** For a fixed clock, a later expiry never yields fewer days remaining. */
  lemma DaysLeftMonotone(expiry: int, expiry': int, now: int)
    requires expiry <= expiry'
    ensures DaysLeft(expiry, now) <= DaysLeft(expiry', now)
  {
    WholeDaysMonotone(expiry - Midnight(now), expiry' - Midnight(now));
  }

  /** The same, read from the certificate text: a later calendar date in
      `notAfter` never yields fewer days remaining. */
  lemma DaysToExpireMonotone(notAfter: string, notAfter': string, now: int)
    requires NotAfter.ParseTimestamp(notAfter).Some? && NotAfter.ParseTimestamp(notAfter').Some?
    requires NotAfter.Parse(notAfter).value <= NotAfter.Parse(notAfter').value
    ensures DaysToExpire(notAfter, now).value <= DaysToExpire(notAfter', now).value
  {
    DaysLeftMonotone(NotAfter.Parse(notAfter).value, NotAfter.Parse(notAfter').value, now);
  }

  /** Two readings of the clock on the same calendar day give the same
      answer: the reference instant is today's midnight, not the reading. */
  lemma SameDaySameAnswer(notAfter: string, now: int, now': int)
    requires Today(now) == Today(now')
    ensures DaysToExpire(notAfter, now) == DaysToExpire(notAfter, now')
  {
  }

  /** A certificate expiring exactly `k` days after the reading reports `k`:
      the part of today already gone is never counted. */
  lemma ExactDaysAhead(now: int, k: nat)
    ensures DaysLeft(now + k * SecondsPerDay, now) == k
  {
    var diff := now + k * SecondsPerDay - Midnight(now);
    assert k * SecondsPerDay <= diff < (k + 1) * SecondsPerDay;
    WholeDaysUnique(diff, k);
  }

  /** A certificate that expired exactly `k` days before the reading reports
      `-k` at midnight and `-(k - 1)` at any later second of the day. */
  lemma ExactDaysBehind(now: int, k: int)
    requires k > 0
    ensures now == Midnight(now) ==> DaysLeft(now - k * SecondsPerDay, now) == -k
    ensures now != Midnight(now) ==> DaysLeft(now - k * SecondsPerDay, now) == -(k - 1)
  {
    var diff := now - k * SecondsPerDay - Midnight(now);
    if now == Midnight(now) {
      WholeDaysUnique(diff, -k);
    } else {
      assert (k - 1) * SecondsPerDay < -diff < k * SecondsPerDay;
      WholeDaysUnique(diff, -(k - 1));
    }
  }

  /** Truncation, not floor: expired by less than a day reports 0, and
      expired by a day and a half reports -1 where floor division
      (`-129600 / 86400` in Dafny) would give -2. */
  lemma TruncatesTowardZero(now: int, late: int)
    requires 0 < late < SecondsPerDay
    ensures DaysLeft(Midnight(now) - late, now) == 0
    ensures DaysLeft(Midnight(now) - 129600, now) == -1
  {
  }

  /** A fixed `notAfter` against a fixed clock (noon, 1 January 2025 UTC)
      gives one exact answer. */
  lemma FixedExample()
    ensures DaysToExpire("20300101000000Z", 20089 * 86400 + 43200) == Some(1826)
  {
    NotAfter.AcceptsEitherCaseZ('Z');
    assert "20300101000000" + ['Z'] == "20300101000000Z";
    FixedDaysLeft();
    ParsedDaysToExpire("20300101000000Z", 20089 * 86400 + 43200, 1893456000);
  }

  lemma FixedDaysLeft()
    ensures DaysLeft(1893456000, 20089 * 86400 + 43200) == 1826
  {
    assert Midnight(20089 * 86400 + 43200) == 1735689600;
  }

  /** Once the text is known to parse, the extractor's answer is the day
      count for that instant. */
  lemma ParsedDaysToExpire(notAfter: string, now: int, expiry: int)
    requires NotAfter.Parse(notAfter) == Some(expiry)
    ensures DaysToExpire(notAfter, now) == Some(DaysLeft(expiry, now))
  {
  }
}
