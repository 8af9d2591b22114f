/**
  The StoreResult Lambda: checks that the event was validated and attaches a
  `storage` block. The two clock readings are parameters: `now` as rendered by
  `toISOString`, `nowMs` as returned by `Date.now()`.
*/
module StoreResult {
  import opened Wrappers
  import opened Json
  import Decimal
  import ValidateData

  const MissingValidation := "Invalid input: missing validation result"
  const StorageIdPrefix := "result-"
  const Completed := "COMPLETED"

  /** `result-${Date.now()}`: the prefix followed by a rendering that reads back as the clock value. */
  function StorageId(nowMs: int): (id: string)
    ensures id == StorageIdPrefix + Decimal.IntToString(nowMs)
    ensures |id| > |StorageIdPrefix|
    ensures id[..|StorageIdPrefix|] == StorageIdPrefix
    ensures Decimal.ParseInt(id[|StorageIdPrefix|..]) == Some(nowMs)
  {
    var digits := Decimal.IntToString(nowMs);
    var id := StorageIdPrefix + digits;
    assert id[|StorageIdPrefix|..] == digits;
    Decimal.IntToStringRoundTrip(nowMs);
    id
  }

  function Storage(now: string, nowMs: int): (v: Value)
    ensures v.Obj? && v.fields.Keys == {"storedAt", "storageId", "storageStatus"}
    ensures v.fields["storageStatus"] == Str(Completed)
    ensures v.fields["storageId"] == Str(StorageId(nowMs))
    ensures v.fields["storedAt"] == Str(now)
  {
    Obj(map[
      "storedAt" := Str(now),
      "storageId" := Str(StorageId(nowMs)),
      "storageStatus" := Str(Completed)])
  }

  /**
    The handler: a falsy or missing `validationResult` throws; otherwise the
    event is returned with every field kept and a `storage` block. The
    validation verdict itself is not inspected.
  */
  function Handler(event: Record, now: string, nowMs: int): (r: Result<Record>)
    ensures r.Err? <==> !TruthyField(event, "validationResult")
    ensures r.Err? ==> r.message == MissingValidation
    ensures r.Ok? ==> r.value.Keys == event.Keys + {"storage"}
    ensures r.Ok? ==> forall k :: k in event && k != "storage" ==> r.value[k] == event[k]
    ensures r.Ok? ==> r.value["storage"] == Storage(now, nowMs)
  {
    if !TruthyField(event, "validationResult") then
      Err(MissingValidation)
    else
      Ok(event["storage" := Storage(now, nowMs)])
  }

  /**
    Whatever ValidateData returns is stored: its `validationResult` block is
    always truthy, including when the verdict is FAILED.
  */
  lemma ValidatedRecordIsStored(event: Record, validatedAt: string, now: string, nowMs: int)
    requires ValidateData.Handler(event, validatedAt).Ok?
    ensures Handler(ValidateData.Handler(event, validatedAt).value, now, nowMs).Ok?
  {
  }
}
