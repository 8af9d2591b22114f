/**
  The ProcessData Lambda: checks that the event carries `data` and builds the
  processed record. The clock reading rendered by `toISOString` is the
  parameter `now`.
*/
module ProcessData {
  import opened Wrappers
  import opened Json

  const MissingData := "Input data is required"
  const ProcessedStatus := "PROCESSED"
  const UnknownSource := "unknown"
  const Version := "1.0"

  /** The `metadata` block: the event's source when it is truthy, else "unknown", and the version. */
  function Metadata(event: Record): (v: Value)
    ensures v.Obj? && v.fields.Keys == {"source", "version"}
    ensures TruthyField(event, "source") ==> v.fields["source"] == event["source"]
    ensures !TruthyField(event, "source") ==> v.fields["source"] == Str(UnknownSource)
    ensures v.fields["version"] == Str(Version)
  {
    Obj(map[
      "source" := if TruthyField(event, "source") then event["source"] else Str(UnknownSource),
      "version" := Str(Version)])
  }

  /**
    The handler: a falsy or missing `data` throws; otherwise the result holds
    exactly the original data, the processing time, the PROCESSED status and
    the metadata. No other field of the event is carried over.
  */
  function Handler(event: Record, now: string): (r: Result<Record>)
    ensures r.Err? <==> !TruthyField(event, "data")
    ensures r.Err? ==> r.message == MissingData
    ensures r.Ok? ==> r.value.Keys == {"originalData", "processedAt", "status", "metadata"}
    ensures r.Ok? ==> r.value["originalData"] == event["data"] && Truthy(r.value["originalData"])
    ensures r.Ok? ==> r.value["processedAt"] == Str(now)
    ensures r.Ok? ==> r.value["status"] == Str(ProcessedStatus)
    ensures r.Ok? ==> r.value["metadata"] == Metadata(event)
  {
    if !TruthyField(event, "data") then
      Err(MissingData)
    else
      Ok(map[
        "originalData" := event["data"],
        "processedAt" := Str(now),
        "status" := Str(ProcessedStatus),
        "metadata" := Metadata(event)])
  }
}
