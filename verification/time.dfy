/** The slice of .NET date arithmetic the expiry check relies on.

    A `DateTime` is modelled as whole seconds since 0001-01-01T00:00
    (`DateTime.Ticks` divided by 10^7); the sub-second part never changes a
    comparison against a whole-second day start, so dropping it is exact.
    Instants coming from a token are Unix seconds. */
module Time {

  const Day: int := 86400
  const Week: int := 7 * Day

  /** 1970-01-01T00:00 as a `DateTime` in seconds. */
  const UnixEpoch: int := 62135596800
  /** 9999-12-31T23:59:59, the last whole second of `DateTime.MaxValue`. */
  const MaxDateTime: int := 315537897599
  /** The range `DateTimeOffset.FromUnixTimeSeconds` accepts. */
  const MinUnixSeconds: int := -62135596800
  const MaxUnixSeconds: int := 253402300799

  /** The environment's clock at the moment of a request: the current instant
      in Unix seconds (rounded down) and the local offset from UTC in seconds. */
  datatype Clock = Clock(utc: int, offset: int)

  /** `ToLocalTime` saturates at `DateTime.MinValue` and `DateTime.MaxValue`. */
  function Clamp(t: int): (r: int)
    ensures 0 <= r <= MaxDateTime
    ensures 0 <= t <= MaxDateTime ==> r == t
    ensures t < 0 ==> r == 0
    ensures t > MaxDateTime ==> r == MaxDateTime
  {
    if t < 0 then 0 else if t > MaxDateTime then MaxDateTime else t
  }

  /** The local wall-clock `DateTime` of a Unix instant: the
      `FromUnixTimeSeconds(unix).LocalDateTime` of the expiry check, and
      `DateTime.Now` when `unix` is the clock's instant. */
  function ToLocal(unix: int, offset: int): (r: int)
    ensures 0 <= r <= MaxDateTime
    ensures 0 <= unix + UnixEpoch + offset <= MaxDateTime ==> r == unix + UnixEpoch + offset
    ensures unix + UnixEpoch + offset < 0 ==> r == 0
    ensures unix + UnixEpoch + offset > MaxDateTime ==> r == MaxDateTime
  {
    Clamp(unix + UnixEpoch + offset)
  }

  /** `DateTime.Now`: the clock's instant shifted by the local offset, within
      the years a `DateTime` can hold. */
  function Now(c: Clock): (r: int)
    ensures 0 <= r <= MaxDateTime
    ensures 0 <= c.utc + UnixEpoch + c.offset <= MaxDateTime ==> r - c.offset - UnixEpoch == c.utc
  {
    ToLocal(c.utc, c.offset)
  }

  /** `DateTime.Date`: midnight at the start of the calendar day of `t`. */
  function DayStart(t: int): (r: int)
    ensures r <= t < r + Day
    ensures r % Day == 0
  {
    t - t % Day
  }

  /** Number of the local calendar day an instant falls on. */
  function LocalDay(unix: int, offset: int): int {
    ToLocal(unix, offset) / Day
  }

  /** The expiry decision of `HasTokenExpired` for a token whose `exp` claim
      is `exp`: "not expired" only when the local midnight that starts the
      expiry's day lies strictly after the local time now. Equivalently, a
      token counts as expired from the start of its expiry day. */
  function IsExpiredAt(exp: int, c: Clock): (r: bool)
    ensures r <==> LocalDay(exp, c.offset) <= LocalDay(c.utc, c.offset)
  {
    var e := ToLocal(exp, c.offset);
    DayStartAfterIff(e, Now(c));
    !(DayStart(e) > Now(c))
  }

  lemma DayStartAfterIff(e: int, n: int)
    requires 0 <= e && 0 <= n
    ensures DayStart(e) > n <==> e / Day > n / Day
  {
    var q, m := e / Day, n / Day;
    assert DayStart(e) == q * Day;
    if q > m {
      assert q * Day >= (m + 1) * Day;
    } else {
      assert q * Day <= m * Day;
    }
  }

  lemma ToLocalMonotone(a: int, b: int, offset: int)
    requires a <= b
    ensures ToLocal(a, offset) <= ToLocal(b, offset)
  {
  }

  lemma DayMonotone(x: int, y: int)
    requires x <= y
    ensures x / Day <= y / Day
  {
  }

  /** A token reported as not expired expires strictly after now. */
  lemma NotExpiredIsFuture(exp: int, c: Clock)
    requires !IsExpiredAt(exp, c)
    ensures exp > c.utc
  {
    if exp <= c.utc {
      ToLocalMonotone(exp, c.utc, c.offset);
      DayMonotone(ToLocal(exp, c.offset), Now(c));
    }
  }

  /** Once a token is reported expired it stays expired as the clock advances. */
  lemma ExpiredStaysExpired(exp: int, c: Clock, later: Clock)
    requires later.offset == c.offset && c.utc <= later.utc
    requires IsExpiredAt(exp, c)
    ensures IsExpiredAt(exp, later)
  {
    ToLocalMonotone(c.utc, later.utc, c.offset);
    DayMonotone(Now(c), Now(later));
  }

  /** A token whose expiry is still ahead but falls on today's local date is
      already reported expired: the date-only comparison treats a token as
      expired for the whole of its expiry day. */
  lemma ExpiresLaterTodayIsExpired(exp: int, c: Clock)
    requires exp > c.utc
    requires LocalDay(exp, c.offset) == LocalDay(c.utc, c.offset)
    ensures IsExpiredAt(exp, c)
  {
  }

  /** The case above happens: an expiry one second from now that still falls
      on today's local date. */
  lemma ExpiresNextSecondIsExpired(c: Clock)
    requires 0 <= c.utc + UnixEpoch + c.offset
    requires c.utc + 1 + UnixEpoch + c.offset <= MaxDateTime
    requires (Now(c) + 1) % Day != 0
    ensures LocalDay(c.utc + 1, c.offset) == LocalDay(c.utc, c.offset)
    ensures IsExpiredAt(c.utc + 1, c)
  {
    var n := Now(c);
    assert ToLocal(c.utc + 1, c.offset) == n + 1;
    assert (n + 1) / Day == n / Day;
    ExpiresLaterTodayIsExpired(c.utc + 1, c);
  }

  /** A token that expires a week from now is not expired now. */
  lemma WeekAheadNotExpired(c: Clock)
    requires 0 <= c.utc + UnixEpoch + c.offset
    requires c.utc + Week + UnixEpoch + c.offset <= MaxDateTime
    ensures !IsExpiredAt(c.utc + Week, c)
  {
    var n := Now(c);
    assert ToLocal(c.utc + Week, c.offset) == n + Week;
    assert (n + Week) / Day == n / Day + 7;
  }

  /** A token that expired a day ago is expired now. */
  lemma DayBehindExpired(c: Clock)
    ensures IsExpiredAt(c.utc - Day, c)
  {
    ToLocalMonotone(c.utc - Day, c.utc, c.offset);
    DayMonotone(ToLocal(c.utc - Day, c.offset), Now(c));
  }
}
