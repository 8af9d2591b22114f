# Step Functions Local setup and the data pipeline's Lambda handlers, in Dafny

This project models two parts of a serverless test repository.

The first part is the script that prepares AWS Step Functions Local for local tests. It does three things:

- It resolves the three Lambda ARN placeholders in the state machine definition.
- It registers the definition as `DataProcessingStateMachine`. First it deletes any machine of that name. Then it tries four role ARNs in order, and finally one attempt without a role.
- It starts one test execution and polls its status, for at most 30 queries.

The second part is the six Lambda handlers of the pipeline:

- `processData` → `validateData` → `storeResult`: the data-processing chain.
- `convertToJST` → `calculateTimeDifference` → `formatResults`: the time chain.

Each handler is a pure function of its event. Clock readings are parameters, and so are the values the JavaScript `Date` runtime supplies.

Files:

- `wrappers.dfy`: `Option` and `Result`. `Err(message)` stands for a thrown error with that message.
- `json.dfy`: JSON-like values and records, JavaScript truthiness, and property reads that may throw. A value that is `undefined` in JavaScript is an absent key.
- `decimal.dfy`: integer rendering as JavaScript writes it, `padStart`, and parsing back.
- `local_step_functions.dfy`: the setup script. The SDK client is replaced by a `Backend` oracle, where `None` means the call throws. The oracle gives:
  - the machine list;
  - whether each delete succeeds;
  - the answer to each creation request;
  - the answer to the start request;
  - the status reported by the k-th describe query.
- One file per handler: `process_data.dfy`, `validate_data.dfy`, `store_result.dfy`, `convert_to_jst.dfy`, `calculate_time_difference.dfy`, `format_results.dfy`.

Three behaviours of the setup script shape the model:

- The placeholders are replaced with `String.prototype.replace` and a string pattern, so only the first occurrence of each is replaced.
- An error from a status query is not retried. It ends `runTestExecution` with `false`.
- When every creation attempt fails, `createStateMachine` throws.

Two steps of the time chain interact: `convertToJST` shifts the instant itself by nine hours, and `calculateTimeDifference` then subtracts that shifted instant from a correctly zoned target. So the difference the chain reports is nine hours less than the real time left. `CalculateTimeDifference.ChainedDifference` states this as-written behaviour.

## Model

| member | source | states |
|---|---|---|
| `LocalStepFunctions.ReplaceFirst` | tests/setup-local-stepfunctions.js:30-33 | without an occurrence of the placeholder the text is unchanged; otherwise exactly the leftmost occurrence is swapped for the ARN and the text before and after it is kept |
| `LocalStepFunctions.LaterOccurrenceSurvives` | tests/setup-local-stepfunctions.js:31 | a second, non-overlapping occurrence of a placeholder is still present after the replacement (replace is not replace-all) |
| `LocalStepFunctions.ResolveWithoutPlaceholders` | tests/setup-local-stepfunctions.js:30-33 | `ResolveDefinition`, the three chained replacements, returns a definition with none of the three placeholders exactly as read (each replacement is specified by `ReplaceFirst`) |
| `LocalStepFunctions.NamedArnsExactlyNamed` | tests/setup-local-stepfunctions.js:41-42 | the ARNs selected for deletion are exactly those of listed machines named `DataProcessingStateMachine` |
| `LocalStepFunctions.NamedArnsOfPrefix` | tests/setup-local-stepfunctions.js:41-48 | the deletions made for a prefix of the list come first, in order, among those for the whole list |
| `LocalStepFunctions.Candidates` | tests/setup-local-stepfunctions.js:54-91 | the creation requests, in order: the four role ARNs, then one without a role, all with the fixed name and the resolved definition |
| `LocalStepFunctions.DeleteExisting` | tests/setup-local-stepfunctions.js:39-51 | delete calls are an in-order prefix of the same-named machines, every one but the last succeeded, and the clean-up stops early only at a failing delete; nothing is deleted when the listing throws |
| `LocalStepFunctions.CleanupDeletesAllWhenHealthy` | tests/setup-local-stepfunctions.js:41-48 | when every delete succeeds, every listed same-named machine is deleted |
| `LocalStepFunctions.CreateWithRoleFallback` | tests/setup-local-stepfunctions.js:53-107 | requests follow the candidate order, all but the last were rejected, the no-role attempt is made only after all four roles failed, and the result is the ARN of the accepted attempt or the exhaustion error |
| `LocalStepFunctions.RegistrationStopsAtFirstAccepted` | tests/setup-local-stepfunctions.js:64-82 | if candidate k is the first accepted, exactly k + 1 requests are made and candidate k's ARN is returned |
| `LocalStepFunctions.RegistrationExhaustsAllCandidates` | tests/setup-local-stepfunctions.js:84-105 | if every candidate is rejected, all five requests are made and `createStateMachine` throws |
| `LocalStepFunctions.CreateStateMachine` | tests/setup-local-stepfunctions.js:36-112 | clean-up trace and registration trace of the resolved definition; the registration happens whatever the clean-up did |
| `LocalStepFunctions.RunTestExecution` | tests/setup-local-stepfunctions.js:115-160 | a failed start gives `false` with no query; otherwise 1 to 30 queries, all but the last saw RUNNING, fewer than 30 only when the last was not RUNNING, RUNNING throughout means exactly 30 queries and `false`, and the result is `true` iff the last query answered SUCCEEDED |
| `ProcessData.Metadata` | src/processData/app.js:18-21 | `source` is the event's source when truthy, else `unknown`; `version` is `1.0`; nothing else |
| `ProcessData.Handler` | src/processData/app.js:9-22 | throws `Input data is required` iff `data` is falsy or missing; otherwise exactly `originalData` (the event's data), `processedAt`, `status` `PROCESSED` and `metadata` |
| `ValidateData.ValidationResult` | src/validateData/app.js:16-23 | `validationStatus` is `PASSED` iff valid and `FAILED` iff not; the rules are `format_check`, `content_validation` in that order |
| `ValidateData.Handler` | src/validateData/app.js:9-24 | throws iff `originalData` or `status` is falsy; otherwise every event field is kept and `validationResult` records whether the status is exactly `PROCESSED` |
| `ValidateData.ProcessedRecordPasses` | src/validateData/app.js:9-22 | any record `processData` returns is accepted and validated `PASSED` |
| `StoreResult.Storage` | src/storeResult/app.js:16-20 | the storage block holds the time, the id built from the clock and the status `COMPLETED` |
| `StoreResult.StorageId` | src/storeResult/app.js:18 | the storage id is `result-` followed by the clock's milliseconds as JavaScript renders them (no leading zeros), text that reads back as that value |
| `StoreResult.Handler` | src/storeResult/app.js:9-21 | throws iff `validationResult` is falsy; otherwise every event field is kept and `storage` is added, whatever the validation verdict |
| `StoreResult.ValidatedRecordIsStored` | src/storeResult/app.js:9-11 | any record `validateData` returns, FAILED verdict included, is stored without error |
| `ConvertToJst.UtcInstant` | src/convertToJST/index.js:11 | the instant is the event's time when truthy, else the clock |
| `ConvertToJst.ToJst` | src/convertToJST/index.js:14 | the JST instant is the UTC instant plus 32,400,000 ms |
| `ConvertToJst.ShiftRoundTrip` | src/convertToJST/index.js:14 | removing the offset recovers the UTC instant and vice versa |
| `ConvertToJst.Handler` | src/convertToJST/index.js:16-20 | the result holds exactly `utcTime`, `jstTime` (nine hours later) and the fixed message; no event field |
| `CalculateTimeDifference.JsRemainder` | src/calculateTimeDifference/index.js:26-28 | JavaScript's truncating `%`: the remainder left by the truncated quotient, with the sign of the dividend and smaller than the divisor |
| `CalculateTimeDifference.Decompose` | src/calculateTimeDifference/index.js:20-28 | `totalMilliseconds` is the difference and `days` is its floor in whole days |
| `CalculateTimeDifference.DecomposeNonNegative` | src/calculateTimeDifference/index.js:25-28 | for a non-negative difference hours are 0..23, minutes and seconds 0..59, and the parts plus the sub-second rest add back up to the difference |
| `CalculateTimeDifference.DecomposeNegative` | src/calculateTimeDifference/index.js:25-28 | for a negative difference days are negative and hours, minutes and seconds are not positive |
| `CalculateTimeDifference.OneMillisecondPast` | src/calculateTimeDifference/index.js:25-28 | a difference of -1 ms gives -1 for every component |
| `CalculateTimeDifference.ZeroAtTarget` | src/calculateTimeDifference/index.js:17-28 | at the target every component is 0 |
| `CalculateTimeDifference.Handler` | src/calculateTimeDifference/index.js:14-41 | every event field is kept except `targetDate`, `timeDifference` and `message`, which are set; the difference is the fixed target minus the current instant |
| `CalculateTimeDifference.TimeDifferenceValue` | src/calculateTimeDifference/index.js:33-39 | the `timeDifference` object holds exactly the five components, each as the number computed |
| `CalculateTimeDifference.ChainedDifference` | src/calculateTimeDifference/index.js:11-39 | fed the instant `convertToJST` produces, the handler reports the decomposition of the real time left minus nine hours |
| `Decimal.IntToString` | src/storeResult/app.js:18 | the rendering is non-empty, starts with `-` exactly for negative numbers, is all digits otherwise and has no leading zero |
| `Decimal.IntToStringRoundTrip` | src/storeResult/app.js:18 | parsing the rendering of any integer gives that integer back |
| `Decimal.PadStart` | src/formatResults/index.js:20 | `padStart`: the length is the larger of the width and the text's length, the text is kept at the end and only fill characters come before it |
| `Decimal.TwoDigitPadding` | src/formatResults/index.js:20 | `padStart(2, '0')` of 0..99 gives two characters, a leading `0` only below 10, and the same value |
| `FormatResults.TwoDigits` | src/formatResults/index.js:20 | the padded month or day has at least two characters and reads back as the number |
| `FormatResults.FormatDateRoundTrip` | src/formatResults/index.js:16-20 | the formatted date reads back as the year, month and day it was made from |
| `FormatResults.MonthAndDayWidth` | src/formatResults/index.js:17-20 | the month shown is the 0-based month plus one, in 1..12; month and day always take two characters |
| `FormatResults.YearNotPadded` | src/formatResults/index.js:20 | the year is written as it is, right before `年` |
| `FormatResults.CurrentDate` | src/formatResults/index.js:16-29 | `currentDate` holds the event's `jstTime` as given (absent when undefined) and the date formatted from the calendar fields, month shifted to 1-based; nothing else |
| `FormatResults.Handler` | src/formatResults/index.js:13-33 | throws iff `timeDifference` is missing or null; otherwise only `currentDate` (the event's `jstTime` and the formatted date), `daysUntilTarget` (the event's days), `targetDate` (passed through) and the message |
| `FormatResults.ReportsCalculatedDays` | src/formatResults/index.js:23-31 | fed the output of `calculateTimeDifference`, the handler does not throw and reports its whole days and its target date |
| `Json.Property` | src/formatResults/index.js:23 | reading `days` throws exactly on `undefined` or `null`; it yields a value exactly when the object has the key, and then that value |
| `Json.FalsyValues` | src/processData/app.js:9 | the `!event.x` guards: exactly `null`, `false`, `0` and `""` are falsy (a missing key reads as `undefined`, also falsy); empty arrays and objects are truthy |

## Left out

- Json.Property: only the key `days` is modelled. JavaScript answers reads of `length`, array indices and inherited prototype names differently, and the pipeline never reads them.
- The AWS SDK client, the network and the one-second sleeps. SDK answers come from the `Backend` oracle, and the sleeps do nothing.
- A creation call that succeeds without returning an ARN. In the oracle, a successful creation always carries an ARN.
- Reading the definition file, `console` logging, and `main` with its `process.exit`: these are process bootstrap and I/O.
- The `output` of the execution, which the script only logs.
- `tests/mock-api.js` (an HTTP server) and `postman-sync.js` (no active logic).
- `Date` parsing, `toISOString` rendering, and `getFullYear`/`getMonth`/`getDate`. These depend on the runtime and its time zone. Instants are integer milliseconds and calendar fields are given integers. An invalid date is not modelled, so `NaN` fields and the `RangeError` that `toISOString` throws do not arise.
- ConvertToJst.Handler: the renderings are written through an `iso` parameter that stands for `toISOString`, so the contract speaks of the instants that are rendered, not of the text.
- Floating-point numbers. JSON numbers are integers, and `Math.floor(a / b)` is exact integer floor division. The two agree for the millisecond values that arise.
- Key order in JavaScript objects. Records are maps, so an object spread keeps keys and values but not their order.
- `String.prototype.replace` special `$` patterns in the replacement. The three ARNs contain no `$`.
- Concurrency. Every handler and loop is sequential, and `async`/`await` adds no modelled interleaving.
