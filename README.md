# Bulk-call dashboard: the number pipeline, in Dafny

The dashboard lets an operator pick a voice assistant, type one phone number or
a list of numbers (one per line) and a delay, and start outbound calls. Two
pieces of its code decide what happens to those numbers.

- The form's submit handler (`components/CallForm.tsx`) decides which text field
  to use. It turns that text into a list of numbers, then either shows an alert
  or hands `(assistantId, phoneNumbers, delay)` on.
- The bulk-call route `POST /api/make-calls` (`app/api/make-calls/route.ts`)
  does the following:
  - validates the request and reads the source phone-number id from the
    server's environment;
  - walks the numbers in order, trimming each and skipping blank ones;
  - asks the calling gateway to place one call per remaining number and turns
    every outcome into a `CallResult`;
  - pauses `delay` milliseconds after each call made before the last raw index;
  - reports the results with a total and the counts of results that have an id
    and that have an error.

The project is organised as follows.

- `wrappers.dfy`: `Option` and `Result`.
- `call_types.dfy`: the records of `types/index.ts` that the route and the form
  exchange, and JavaScript truthiness of an optional string.
- `js_string.dfy` models the JavaScript string operations the code uses:
  - `trim` with the ECMAScript whitespace set;
  - `split` on one character, with its inverse `join`;
  - the `map(trim).filter(length > 0)` chain;
  - the decimal printing of a status code.
- `make_calls.dfy`: the route.
  - `MakeSingleCall` is a function of the gateway's outcome.
  - `Dispatch` is the loop, written as a method with invariants. It returns the
    results and a ghost trace of the gateway calls and pauses it makes.
  - `Post` is the handler.
  - Lemmas give an independent description of the trace (calls separated by
    pauses) and of the counts.
- `call_form.dfy`: `handleSubmit`.
- `form_to_route.dfy` states what the route does with a list the form accepted.

The effects are modelled as parameters.
- The gateway is an oracle `gateway(k, request)`, which gives the outcome of
  the `k`-th call of a run. The outcome is an HTTP response (status, body text,
  JSON parse result) or a thrown value (with its message when it is an `Error`).
- The clock is an oracle `clock(k)` that gives the timestamp of the `k`-th
  result.
- The environment is a `Config` value.
- A pause is a `Sleep(ms)` event in the trace.

## Model

| member | source | states |
|---|---|---|
| JsString.Trim | app/api/make-calls/route.ts:89 | `trim` leaves no whitespace at either end. It gives the empty string exactly when the input is all whitespace. It returns an already-trimmed input unchanged. |
| JsString.TrimIsInnerSlice | components/CallForm.tsx:33 | The trimmed string is a slice of the input with only whitespace before and after it. |
| JsString.Split | components/CallForm.tsx:32 | `split('\n')` gives at least one part. No part contains the separator, and joining the parts with the separator gives back the text. |
| JsString.SplitJoin | components/CallForm.tsx:32 | `split` undoes `join` for parts without the separator. |
| JsString.JoinAllWhitespace | components/CallForm.tsx:29-32 | With a whitespace separator, a joined text is all whitespace exactly when every part is. |
| JsString.TrimAndDropBlank | components/CallForm.tsx:33-34 | `map(n => n.trim()).filter(n => n.length > 0)`. It never yields more entries than lines. `TrimAndDropBlankClean`, `TrimAndDropBlankSnoc` and `TrimAndDropBlankAppend` state what it keeps and in what order. |
| JsString.TrimAndDropBlankClean | components/CallForm.tsx:31-34 | Every entry left by trim-then-drop-empty is non-empty and has no whitespace at either end. |
| JsString.TrimAndDropBlankAppend | components/CallForm.tsx:31-34 | The chain works line by line and keeps the order: the chain of `a + b` is the chain of `a` followed by the chain of `b`. |
| JsString.TrimAndDropBlankSnoc | app/api/make-calls/route.ts:88-94 | Adding one line adds what that line keeps: its trimmed form, or nothing if it is blank. |
| JsString.TrimAndDropBlankOfClean | app/api/make-calls/route.ts:89-94 | A list of non-empty, trimmed entries passes through the chain unchanged. |
| JsString.TrimAndDropBlankIdempotent | app/api/make-calls/route.ts:89-94 | Applying the chain twice is the same as applying it once. |
| JsString.TrimAndDropBlankEmpty | components/CallForm.tsx:31-34 | The chain yields nothing exactly when every line is all whitespace. |
| JsString.TrimAndDropBlankAvoids | components/CallForm.tsx:31-34 | A character that no line contains is in no entry of the result. |
| JsString.DecimalString | app/api/make-calls/route.ts:34 | Interpolating a status code gives a canonical numeral: digits only, with no leading zero unless the numeral is `0`. |
| JsString.DecimalRoundTrip | app/api/make-calls/route.ts:34 | Those digits read back as the status code. |
| JsString.CanonicalDecimalUnique | app/api/make-calls/route.ts:34 | A canonical numeral is the printed form of its value, so the value fixes the text. |
| JsString.LeadingDigitPositive | app/api/make-calls/route.ts:34 | A numeral whose first digit is not zero has a positive value. |
| MakeCalls.IsOkStatus | app/api/make-calls/route.ts:32 | `response.ok`: the status is in 200–299. |
| MakeCalls.ApiErrorMessage | app/api/make-calls/route.ts:32-35 | The message is `API error: `, then the status as a canonical numeral that reads back as the status, then ` - `, then the response body verbatim. |
| MakeCalls.ApiErrorMessageDetermined | app/api/make-calls/route.ts:34 | Any string that meets the contract of `ApiErrorMessage` is exactly `API error: ${status} - ${body}`. |
| MakeCalls.FailedResult | app/api/make-calls/route.ts:46-51 | The object the catch returns. It is never counted as successful, and it is counted as failed exactly when the message is non-empty. `MakeSingleCall` states its fields. |
| MakeCalls.MakeSingleCall | app/api/make-calls/route.ts:10-53 | The result is for the number given and carries the clock's timestamp. It has no error exactly when the gateway answered 2xx with a parsable body, and then it carries the reply's id and status. Otherwise it has status `failed`, no id, and one of these errors: the API-error message for a non-2xx status; the JSON parse error's message for a 2xx body that does not parse; the thrown `Error`'s message; or `Unknown error` for any other thrown value. |
| MakeCalls.ResultClassification | app/api/make-calls/route.ts:39-51 | No result has both a truthy id and a truthy error. For an outcome with a non-empty id or message, the result has exactly one of them. |
| MakeCalls.SuccessfulCalls | app/api/make-calls/route.ts:112 | Counts the results with a truthy id; the count is at most the number of results. |
| MakeCalls.FailedCalls | app/api/make-calls/route.ts:113 | Counts the results with a truthy error; the count is at most the number of results. |
| MakeCalls.CountsWithinTotal | app/api/make-calls/route.ts:112-117 | If no result is in both buckets, successful plus failed is at most the total. |
| MakeCalls.CountsPartition | app/api/make-calls/route.ts:112-117 | If every result is in exactly one bucket, successful plus failed equals the total. |
| CallTypes.Truthy | app/api/make-calls/route.ts:112-113 | JavaScript truthiness of an optional string, as the tests on `assistantId`, `phoneNumberId`, `callId` and `error` use it: present and non-empty. |
| MakeCalls.ReplyWithoutIdIsUncounted | app/api/make-calls/route.ts:37-44 | Any 2xx reply whose id is missing or empty gives a result in neither bucket, whatever the number, status code, body and timestamp. |
| MakeCalls.RequestFor | app/api/make-calls/route.ts:22-29 | What the gateway request identifies: the assistant, the trimmed number and the configured source number. A helper covered by the `Dispatch` and `CallsOncePerEntry` rows. |
| MakeCalls.EventsAt | app/api/make-calls/route.ts:89-108 | One iteration: nothing when the raw entry is all whitespace; otherwise a call with the trimmed number, followed by a pause of `delay` exactly when the index is not the last. |
| MakeCalls.Trace | app/api/make-calls/route.ts:88-109 | The events of all iterations in index order. `TraceIsSeparated` gives its shape. |
| MakeCalls.RequestsAppend | app/api/make-calls/route.ts:99 | The calls in a trace distribute over concatenation. |
| MakeCalls.SleepCountAppend | app/api/make-calls/route.ts:107 | The pauses in a trace distribute over concatenation. |
| MakeCalls.NumbersStep | app/api/make-calls/route.ts:89-94 | Going one raw entry further adds that entry's trimmed form, or nothing if it is blank. |
| MakeCalls.TraceBeforeLast | app/api/make-calls/route.ts:104-108 | Before the last raw index, every call made so far has been followed by a pause. |
| MakeCalls.TraceAtLast | app/api/make-calls/route.ts:104-109 | The step at the last raw index adds a call without a pause, or nothing for a blank entry. This turns the "every call followed by a pause" shape into the full trace. |
| MakeCalls.TraceIsSeparated | app/api/make-calls/route.ts:88-109 | The whole trace is the calls for the non-blank entries, in input order, with one pause between each two. A further pause comes at the end exactly when a call was made and the last raw entry is blank. |
| MakeCalls.SeparatedRequests | app/api/make-calls/route.ts:99 | The calls of the separated shape are the requests for its numbers, in order. |
| MakeCalls.SeparatedPauses | app/api/make-calls/route.ts:105-108 | The separated shape with `m > 0` calls holds `m - 1` pauses. |
| MakeCalls.CallsOncePerEntry | app/api/make-calls/route.ts:88-100 | The gateway is called exactly once per non-blank entry, in input order, with the trimmed number, whatever the gateway answers. |
| MakeCalls.PauseCount | app/api/make-calls/route.ts:104-108 | The number of pauses is the number of non-blank entries before the last raw index, so it is at most one less than the number of raw entries. |
| MakeCalls.PausesBeforeLast | app/api/make-calls/route.ts:105 | The pauses between calls plus the trailing pause number the non-blank entries before the last raw index. |
| MakeCalls.TrailingBlankStillPauses | app/api/make-calls/route.ts:105 | For a clean number followed by an all-whitespace entry, the trace is one call and then one pause. |
| MakeCalls.BlankStep | app/api/make-calls/route.ts:89-94 | An iteration on a blank entry leaves the trace and the results as they are. |
| MakeCalls.CallStep | app/api/make-calls/route.ts:96-108 | An iteration on a non-blank entry adds its call and, unless it is the last raw entry, a pause. It also appends the result of the gateway's next call for the trimmed number. |
| MakeCalls.ResultsMatchSnoc | app/api/make-calls/route.ts:99-100 | Appending the result of the next call keeps the results matched to the numbers. |
| MakeCalls.Dispatch | app/api/make-calls/route.ts:85-109 | The loop's trace is `Trace(job)`. The results are, in order, one per non-blank entry: the `k`-th is `MakeSingleCall` of the `k`-th trimmed number and of the gateway's `k`-th outcome. |
| MakeCalls.HasRequiredFields | app/api/make-calls/route.ts:62 | The request passes validation exactly when the assistant id is truthy and the number list is present and non-empty. |
| MakeCalls.JobOf | app/api/make-calls/route.ts:59 | The loop's input: the request's assistant and raw numbers, both non-empty; the configured source number; and the request's delay, or 2000 when it has none. |
| MakeCalls.Post | app/api/make-calls/route.ts:56-127 | Each outcome is listed below. |
| CallForm.BulkEntriesClean | components/CallForm.tsx:31-34 | Every bulk entry is non-empty, trimmed and free of line breaks. |
| CallForm.BulkEntries | components/CallForm.tsx:31-34 | The bulk text split on line breaks, trimmed and filtered. It yields nothing exactly when the text is all whitespace. |
| CallForm.BulkEntriesOfLines | components/CallForm.tsx:31-34 | Typing clean numbers one per line gives back exactly those numbers, in that order. |
| CallForm.HandleSubmit | components/CallForm.tsx:18-49 | Each outcome is listed below. |
| FormToRoute.RequestOf | app/page.tsx:59-63 | The body the page posts for a submission. It passes the route's validation exactly when the assistant id and the number list are non-empty. |
| FormToRoute.FormFeedsRoute | app/api/make-calls/route.ts:62-109 | The request built from an accepted submission passes validation. For that request, the steps below all hold. |

`MakeCalls.Post` ends in one of three ways:
- a request without a truthy assistant id or without a non-empty number list
  gives 400 with the missing-fields error, and no call is made;
- otherwise, a missing or empty source number id gives 500 with the
  configuration error, and no call is made;
- otherwise it gives 200, with these properties:
  - the trace of the loop;
  - one result per non-blank number, as `Dispatch` states;
  - the total, the two counts, and the count of successful plus failed calls,
    which is at most the total;
  - the equality of that sum with the total when every outcome has a non-empty
    id or message.

`CallForm.HandleSubmit` behaves as follows:
- with no assistant it alerts `Please select an assistant`;
- a bulk text that is not all whitespace is used, and the single field is
  ignored;
- otherwise a non-blank single field gives exactly `[single.trim()]`;
- if both fields are blank it alerts;
- the zero-length alert is never produced;
- an accepted submission carries the selected assistant and the delay unchanged,
  and at least one number, each non-empty and trimmed.

For `FormToRoute.FormFeedsRoute`, each of the following holds:
- the route's trim leaves each number unchanged;
- blank-skipping drops nothing;
- the trace is exactly the calls separated by single pauses;
- the gateway is called once per number, in order;
- there are `n - 1` pauses for `n` numbers.

## Notes on the code

- The counts. One might expect successful plus failed to equal the total. The
  code counts by the truthiness of `callId` and of `error`
  (route.ts:112-113). So a 2xx reply with a missing or empty `id` is counted
  in neither bucket, and so is an `Error` with an empty message. `Post`
  promises the sum is at most the total. It promises equality only when every
  outcome carries a non-empty id or message. `ReplyWithoutIdIsUncounted`
  exhibits the gap.
- The pause. One might expect a pause only between two calls. The code pauses
  after every call whose raw index is not the last (route.ts:105). So blank
  entries at the end of the list still leave one pause after the last real
  call, while blank entries in between add no pause. `TraceIsSeparated`,
  `PauseCount` and `TrailingBlankStillPauses` state this.

## Left out

- The HTTP request to the gateway is not modelled. This covers its URL, the
  bearer token, the JSON it sends (including `numberE164CheckEnabled`) and the
  network itself. A call is an oracle outcome that depends only on the request
  and the call's ordinal.
- `process.env` becomes the `Config` parameter; `VAPI_PRIVATE_KEY` is not
  modelled.
- `new Date().toISOString()` becomes the `clock` oracle, and timestamps are
  opaque strings.
- `sleep` is a `Sleep(delay)` event in the ghost trace. Real time and
  `setTimeout` are not modelled.
- Parsing the request body, and the catch-all 500 for a body that is not valid
  JSON, are not modelled. The route receives an already decoded
  `MakeCallsRequest` whose `assistantId` is a string, whose `phoneNumbers` is
  an array of strings and whose `delay` is an integer.
- An element of `phoneNumbers` that is not a string is not represented. In the
  code, `phoneNumbers[i].trim()` (route.ts:89) throws part-way through the loop,
  after the earlier calls were already placed, and the handler answers with
  the catch-all 500 (route.ts:129-137).
- A `delay` that is not an integer, such as a fraction or a string, is not
  represented.
- A missing `delay` is `None` and takes the default 2000. An explicit `null`,
  which the code passes to `setTimeout` as is, is not distinguished from
  missing.
- The `success` flag of the responses is implied by the body's constructor:
  `ErrorBody` means `false` and `OkBody` means `true`.
- The `status` that a reply carries is any string, since the route casts it
  without checking.
- The `id` that a reply carries is modelled as an optional string. The route
  copies `data.id` unchecked (route.ts:41), so a JSON number such as `42` or `0`
  would reach `callId` as it is. It would then be counted by its own
  truthiness (route.ts:112), which the model does not represent.
- `console.log` output is not modelled.
- The scheduling fields of `types/index.ts` are not modelled, because the route
  never reads them.
- The assistants route, `app/page.tsx`, `components/CallResults.tsx`,
  `app/layout.tsx`, `handleClear` and the rendering of the form are not part of
  this model.
- The page's request builds the route's body from the form's arguments.
  `FormToRoute.RequestOf` is that mapping, as the page is not modelled.
- The delay slider's 1000–5000 ms range is left out, because it is an HTML
  attribute the code does not enforce. Any integer delay is accepted.
- Strings are sequences of Dafny characters, not UTF-16 code units. `trim`
  uses the ECMAScript whitespace and line-terminator set, taken one character
  at a time.
