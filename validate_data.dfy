/**
  The ValidateData Lambda: checks the required fields, decides validity from
  the status and attaches a `validationResult` block to the event. The clock
  reading rendered by `toISOString` is the parameter `now`.
*/
module ValidateData {
  import opened Wrappers
  import opened Json
  import ProcessData

  const MissingFields := "Invalid input: missing required fields"
  const Passed := "PASSED"
  const Failed := "FAILED"
  const Rules: seq<Value> := [Str("format_check"), Str("content_validation")]

  /** The `validationResult` block for an event whose validity is `isValid`. */
  function ValidationResult(isValid: bool, now: string): (v: Value)
    ensures v.Obj? && v.fields.Keys == {"isValid", "validatedAt", "validationRules", "validationStatus"}
    ensures v.fields["isValid"] == Bool(isValid)
    ensures v.fields["validationStatus"] == Str(Passed) <==> isValid
    ensures v.fields["validationStatus"] == Str(Failed) <==> !isValid
    ensures v.fields["validationRules"] == Arr([Str("format_check"), Str("content_validation")])
    ensures v.fields["validatedAt"] == Str(now)
  {
    Obj(map[
      "isValid" := Bool(isValid),
      "validatedAt" := Str(now),
      "validationRules" := Arr(Rules),
      "validationStatus" := Str(if isValid then Passed else Failed)])
  }

  /**
    The handler: a falsy or missing `originalData` or `status` throws;
    otherwise the event is returned with every field kept and a
    `validationResult` block whose verdict is "the status is exactly
    PROCESSED".
  */
  function Handler(event: Record, now: string): (r: Result<Record>)
    ensures r.Err? <==> !TruthyField(event, "originalData") || !TruthyField(event, "status")
    ensures r.Err? ==> r.message == MissingFields
    ensures r.Ok? ==> r.value.Keys == event.Keys + {"validationResult"}
    ensures r.Ok? ==> forall k :: k in event && k != "validationResult" ==> r.value[k] == event[k]
    ensures r.Ok? ==> r.value["validationResult"] ==
                        ValidationResult(event["status"] == Str(ProcessData.ProcessedStatus), now)
  {
    if !TruthyField(event, "originalData") || !TruthyField(event, "status") then
      Err(MissingFields)
    else
      var isValid := event["status"] == Str(ProcessData.ProcessedStatus);
      Ok(event["validationResult" := ValidationResult(isValid, now)])
  }

  /** The record carries a `validationResult` block whose status is PASSED. */
  predicate PassedValidation(r: Record) {
    && "validationResult" in r
    && r["validationResult"].Obj?
    && "validationStatus" in r["validationResult"].fields
    && r["validationResult"].fields["validationStatus"] == Str(Passed)
  }

  /** Every record ProcessData produces is accepted here, with status PASSED. */
  lemma ProcessedRecordPasses(event: Record, processedAt: string, validatedAt: string)
    requires ProcessData.Handler(event, processedAt).Ok?
    ensures Handler(ProcessData.Handler(event, processedAt).value, validatedAt).Ok?
    ensures PassedValidation(Handler(ProcessData.Handler(event, processedAt).value, validatedAt).value)
  {
  }
}
