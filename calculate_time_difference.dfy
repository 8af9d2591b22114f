/**
  The CalculateTimeDifference Lambda: the time left until 2025-09-06
  20:00:00 JST, split into days, hours, minutes and seconds.

  Instants are integer milliseconds since the epoch; `currentMs` is the instant
  `new Date(event.jstTime)` denotes. `Math.floor(a / b)` with a positive
  divisor is Dafny's `/`; JavaScript's `%` truncates toward zero and is
  written out as `JsRemainder`.
*/
module CalculateTimeDifference {
  import opened Json
  import ConvertToJst

  const MsPerSecond := 1000
  const MsPerMinute := MsPerSecond * 60
  const MsPerHour := MsPerMinute * 60
  const MsPerDay := MsPerHour * 24

  /** 2025-09-06T20:00:00+09:00, that is 2025-09-06T11:00:00Z. */
  const TargetMs := 1_757_156_400_000
  const TargetIso := "2025-09-06T11:00:00.000Z"
  const Message := "目標日時までの差分を計算しました"

  /** Division truncated toward zero, the quotient that goes with JavaScript's `%`. */
  function TruncatedQuotient(a: int, b: int): int
    requires b > 0
  {
    if a >= 0 then a / b else -((-a) / b)
  }

  /**
    JavaScript's `a % b` for a positive divisor: what is left of `a` after
    taking away the truncated quotient's multiple of `b`; it has the sign of
    `a` and agrees with Dafny's `%` on non-negative `a`.
  */
  function JsRemainder(a: int, b: int): (r: int)
    requires b > 0
    ensures a == TruncatedQuotient(a, b) * b + r
    ensures -b < r < b
    ensures a >= 0 ==> 0 <= r
    ensures a < 0 ==> r <= 0
    ensures a >= 0 ==> r == a % b
  {
    if a >= 0 then a % b else -((-a) % b)
  }

  datatype TimeDifference = TimeDifference(totalMilliseconds: int, days: int, hours: int, minutes: int, seconds: int)

  /** The handler's arithmetic on a difference of `diff` milliseconds; `days` is the floor of whole days. */
  function Decompose(diff: int): (d: TimeDifference)
    ensures d.totalMilliseconds == diff
    ensures d.days * MsPerDay <= diff < (d.days + 1) * MsPerDay
  {
    TimeDifference(
      diff,
      diff / MsPerDay,
      JsRemainder(diff, MsPerDay) / MsPerHour,
      JsRemainder(diff, MsPerHour) / MsPerMinute,
      JsRemainder(diff, MsPerMinute) / MsPerSecond)
  }

  lemma MulAtLeast(x: int, s: int)
    requires x >= 1 && s > 0
    ensures x * s >= s
  {
    assert x * s == (x - 1) * s + s;
    assert (x - 1) * s >= 0;
  }

  /** Euclidean remainder is unique: any split `a == q * b + r` with `0 <= r < b` has `r == a % b`. */
  lemma RemainderUnique(a: int, b: int, q: int, r: int)
    requires b > 0 && 0 <= r < b && a == q * b + r
    ensures a % b == r
  {
    var d := q - a / b;
    assert a == (a / b) * b + a % b;
    assert d * b == q * b - (a / b) * b;
    assert d * b == a % b - r;
    if d >= 1 {
      MulAtLeast(d, b);
    } else if d <= -1 {
      MulAtLeast(-d, b);
    }
  }

  /**
    The units nest: with `big` a multiple of `small`, what is left of `a`
    below `big`, taken below `small`, is what is left of `a` below `small`.
  */
  lemma NestedRemainder(a: nat, big: nat, small: nat, k: nat)
    requires 0 < small && big == k * small && 0 < k
    ensures (a % big) % small == a % small
  {
    var r := a % big;
    var n := a / big;
    var m := r / small;
    assert a == n * big + r;
    assert r == m * small + r % small;
    assert n * big == (n * k) * small;
    assert a == (n * k + m) * small + r % small;
    RemainderUnique(a, small, n * k + m, r % small);
  }

  lemma NestedRemainders(a: nat)
    ensures (a % MsPerDay) % MsPerHour == a % MsPerHour
    ensures (a % MsPerHour) % MsPerMinute == a % MsPerMinute
    ensures (a % MsPerMinute) % MsPerSecond == a % MsPerSecond
  {
    NestedRemainder(a, MsPerDay, MsPerHour, 24);
    NestedRemainder(a, MsPerHour, MsPerMinute, 60);
    NestedRemainder(a, MsPerMinute, MsPerSecond, 60);
  }

  /**
    For a non-negative difference the components are in their clock ranges
    and add back up to the difference, less its sub-second part.
  */
  lemma {:induction false} DecomposeNonNegative(diff: int)
    requires diff >= 0
    ensures 0 <= Decompose(diff).hours < 24
    ensures 0 <= Decompose(diff).minutes < 60
    ensures 0 <= Decompose(diff).seconds < 60
    ensures Decompose(diff).days * MsPerDay + Decompose(diff).hours * MsPerHour
            + Decompose(diff).minutes * MsPerMinute + Decompose(diff).seconds * MsPerSecond
            + diff % MsPerSecond == diff
  {
    var d := Decompose(diff);
    var rDay := diff % MsPerDay;
    var rHour := diff % MsPerHour;
    var rMinute := diff % MsPerMinute;
    NestedRemainders(diff);
    assert rDay % MsPerHour == rHour;
    assert rHour % MsPerMinute == rMinute;
    assert rMinute % MsPerSecond == diff % MsPerSecond;
    assert diff == d.days * MsPerDay + rDay;
    assert rDay == d.hours * MsPerHour + rHour;
    assert rHour == d.minutes * MsPerMinute + rMinute;
    assert rMinute == d.seconds * MsPerSecond + diff % MsPerSecond;
  }

  /**
    For a negative difference the truncating remainder makes hours, minutes
    and seconds non-positive (they are not the clock components of |diff|).
  */
  lemma DecomposeNegative(diff: int)
    requires diff < 0
    ensures Decompose(diff).days < 0
    ensures -24 <= Decompose(diff).hours <= 0
    ensures -60 <= Decompose(diff).minutes <= 0
    ensures -60 <= Decompose(diff).seconds <= 0
  {
  }

  /** One millisecond past the target, every component is -1. */
  lemma OneMillisecondPast()
    ensures Decompose(-1) == TimeDifference(-1, -1, -1, -1, -1)
  {
  }

  /** At the target, every component is 0. */
  lemma ZeroAtTarget()
    ensures Decompose(TargetMs - TargetMs) == TimeDifference(0, 0, 0, 0, 0)
  {
  }

  /** The `timeDifference` object: the five components as numbers, and nothing else. */
  function TimeDifferenceValue(d: TimeDifference): (v: Value)
    ensures v.Obj? && v.fields.Keys == {"totalMilliseconds", "days", "hours", "minutes", "seconds"}
    ensures v.fields["totalMilliseconds"] == Num(d.totalMilliseconds)
    ensures v.fields["days"] == Num(d.days)
    ensures v.fields["hours"] == Num(d.hours)
    ensures v.fields["minutes"] == Num(d.minutes)
    ensures v.fields["seconds"] == Num(d.seconds)
  {
    Obj(map[
      "totalMilliseconds" := Num(d.totalMilliseconds),
      "days" := Num(d.days),
      "hours" := Num(d.hours),
      "minutes" := Num(d.minutes),
      "seconds" := Num(d.seconds)])
  }

  /**
    The handler: the event with every field kept except `targetDate`,
    `timeDifference` and `message`, which are set (or overwritten).
  */
  function Handler(event: Record, currentMs: int): (r: Record)
    ensures r.Keys == event.Keys + {"targetDate", "timeDifference", "message"}
    ensures forall k :: k in event && k !in {"targetDate", "timeDifference", "message"} ==> r[k] == event[k]
    ensures r["targetDate"] == Str(TargetIso)
    ensures r["timeDifference"] == TimeDifferenceValue(Decompose(TargetMs - currentMs))
    ensures r["message"] == Str(Message)
  {
    event["targetDate" := Str(TargetIso)]
         ["timeDifference" := TimeDifferenceValue(Decompose(TargetMs - currentMs))]
         ["message" := Str(Message)]
  }

  /**
    Chained after ConvertToJST, the current instant is the clock shifted by
    nine hours, while the target is a true instant: the difference the
    handler reports is the real time left minus nine hours.
  */
  lemma ChainedDifference(event: Record, utc: int)
    ensures Handler(event, ConvertToJst.ToJst(utc))["timeDifference"] ==
              TimeDifferenceValue(Decompose((TargetMs - utc) - 32_400_000))
  {
    assert TargetMs - ConvertToJst.ToJst(utc) == (TargetMs - utc) - 32_400_000;
  }
}
