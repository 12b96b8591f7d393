/** Python `datetime` values as far as the freshness gate uses them: a wall-clock reading in
    microseconds plus a zone tag. A naive datetime carries no zone; an aware one carries UTC or
    a fixed offset. Also the concrete "previous boundary" of the fixed-period cron schedules. */
module Instants {
  import opened Outcomes

  const Second: int := 1_000_000
  const Minute: int := 60 * Second
  const Hour: int := 60 * Minute
  const Day: int := 24 * Hour

  /** `tzinfo`: absent (naive), UTC, or a fixed offset from UTC in microseconds. */
  datatype Zone = Naive | Utc | Offset(shift: int)

  /** A datetime: its wall-clock reading (microseconds since 1970-01-01T00:00 on that clock)
      and its zone. */
  datatype Instant = Instant(wall: int, zone: Zone)

  predicate Aware(t: Instant)
  {
    !t.zone.Naive?
  }

  /** The absolute time of an aware datetime, on the UTC clock. */
  function UtcValue(t: Instant): int
    requires Aware(t)
  {
    if t.zone.Offset? then t.wall - t.zone.shift else t.wall
  }

  /** The absolute time of a datetime, reading a naive one as UTC. */
  function ClockValue(t: Instant): int
  {
    if Aware(t) then UtcValue(t) else t.wall
  }

  /** `t.replace(tzinfo=datetime.UTC)`: the wall clock is kept and the zone relabelled. */
  function AsUtc(t: Instant): (r: Instant)
    ensures Aware(r) && r.wall == t.wall && UtcValue(r) == t.wall
  {
    Instant(t.wall, Utc)
  }

  /** Python's `a > b` on datetimes. `None` is the `TypeError` Python raises when one side is
      naive and the other aware; aware values compare by absolute time. */
  function Later(a: Instant, b: Instant): (r: Option<bool>)
    ensures r.Some? <==> Aware(a) == Aware(b)
    ensures r == Some(true) ==> a != b
    ensures Aware(a) && Aware(b) && a.zone == b.zone ==> r == Some(a.wall > b.wall)
    ensures r.Some? ==> r.value == (ClockValue(a) > ClockValue(b))
  {
    if Aware(a) && Aware(b) then Some(UtcValue(a) > UtcValue(b))
    else if !Aware(a) && !Aware(b) then Some(a.wall > b.wall)
    else None
  }

  /** The "fix timezones" step: when exactly one side is naive it is labelled UTC; otherwise
      both pass through unchanged. */
  function FixTimezones(a: Instant, b: Instant): (r: (Instant, Instant))
    ensures Aware(r.0) == Aware(r.1)
    ensures r.0.wall == a.wall && r.1.wall == b.wall
    ensures Aware(a) == Aware(b) ==> r == (a, b)
    ensures r.0 == a || (!Aware(a) && r.0.zone == Utc)
    ensures r.1 == b || (!Aware(b) && r.1.zone == Utc)
  {
    if !Aware(a) && Aware(b) then (AsUtc(a), b)
    else if Aware(a) && !Aware(b) then (a, AsUtc(b))
    else (a, b)
  }

  /** Aligning twice is the same as aligning once. */
  lemma FixTimezonesIdempotent(a: Instant, b: Instant)
    ensures var r := FixTimezones(a, b); FixTimezones(r.0, r.1) == r
  {
  }

  /** `croniter("0 * * * *", t).get_prev()` on the UTC clock: the latest whole hour strictly
      before `t`. */
  function HourlyPrev(t: int): (r: int)
    ensures r < t <= r + Hour
    ensures r % Hour == 0
  {
    (t - 1) - (t - 1) % Hour
  }

  /** No hourly boundary lies strictly between the computed one and `t`. */
  lemma HourlyPrevIsLatest(t: int, m: int)
    requires m % Hour == 0 && m < t
    ensures m <= HourlyPrev(t)
  {
  }

  /** Stepping back twice gives boundaries exactly one hour apart. */
  lemma HourlyPrevTwice(t: int)
    ensures HourlyPrev(HourlyPrev(t)) == HourlyPrev(t) - Hour
  {
  }

  /** `croniter("0 0 * * *", t).get_prev()` on the UTC clock: the latest midnight strictly
      before `t`. */
  function DailyPrev(t: int): (r: int)
    ensures r < t <= r + Day
    ensures r % Day == 0
  {
    (t - 1) - (t - 1) % Day
  }

  /** No daily boundary lies strictly between the computed one and `t`. */
  lemma DailyPrevIsLatest(t: int, m: int)
    requires m % Day == 0 && m < t
    ensures m <= DailyPrev(t)
  {
  }

  /** Stepping back twice gives boundaries exactly one day apart. */
  lemma DailyPrevTwice(t: int)
    ensures DailyPrev(DailyPrev(t)) == DailyPrev(t) - Day
  {
  }
}
