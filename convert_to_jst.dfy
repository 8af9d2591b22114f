/**
  The ConvertToJST Lambda: takes the event's time, or the current time when
  the event has none, and shifts it by nine hours.

  Instants are integer milliseconds since the epoch. `eventTimeMs` is the
  instant `new Date(event.time)` denotes (used only when `event.time` is
  truthy), `nowMs` the clock, and `iso` the `toISOString` rendering.
*/
module ConvertToJst {
  import opened Json

  const JstOffsetMs := 9 * 60 * 60 * 1000
  const Message := "UTC時刻をJSTに変換しました"

  /** The instant converted: the event's time when truthy, otherwise the clock. */
  function UtcInstant(event: Record, eventTimeMs: int, nowMs: int): (utc: int)
    ensures TruthyField(event, "time") ==> utc == eventTimeMs
    ensures !TruthyField(event, "time") ==> utc == nowMs
  {
    if TruthyField(event, "time") then eventTimeMs else nowMs
  }

  /** The JST instant: the UTC instant plus nine hours. */
  function ToJst(utc: int): (jst: int)
    ensures jst - utc == 32_400_000
  {
    utc + JstOffsetMs
  }

  /** Subtracting the offset recovers the UTC instant. */
  function FromJst(jst: int): int {
    jst - JstOffsetMs
  }

  lemma ShiftRoundTrip(utc: int, jst: int)
    ensures FromJst(ToJst(utc)) == utc
    ensures ToJst(FromJst(jst)) == jst
  {
  }

  /** The handler: exactly the two renderings and the message; no event field is carried. */
  function Handler(event: Record, eventTimeMs: int, nowMs: int, iso: int -> string): (r: Record)
    ensures r.Keys == {"utcTime", "jstTime", "message"}
    ensures r["utcTime"] == Str(iso(UtcInstant(event, eventTimeMs, nowMs)))
    ensures r["jstTime"] == Str(iso(UtcInstant(event, eventTimeMs, nowMs) + 32_400_000))
    ensures r["message"] == Str(Message)
  {
    var utc := UtcInstant(event, eventTimeMs, nowMs);
    map[
      "utcTime" := Str(iso(utc)),
      "jstTime" := Str(iso(ToJst(utc))),
      "message" := Str(Message)]
  }
}
