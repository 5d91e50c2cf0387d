/** The bulk-call route (app/api/make-calls/route.ts): the validation of a
    request, the per-call result normaliser `makeSingleCall`, the sequential
    dispatch loop with its pause between calls, and the success/failure counts.

    The calling gateway is an oracle: `gateway(k, request)` is what the k-th
    call of a dispatch (counting from 0) ends in. The clock that stamps each
    result is an oracle too. Pauses and gateway calls are recorded, in order,
    in a ghost trace of events. */
module MakeCalls {
  import opened Wrappers
  import opened JsString
  import opened CallTypes

  const DefaultDelay: int := 2000
  const MissingFieldsError: string := "Missing required fields: assistantId and phoneNumbers are required"
  const MissingConfigError: string := "Server configuration error: VAPI_PHONE_NUMBER_ID not set"
  const UnknownError: string := "Unknown error"
  const FailedStatus: string := "failed"

  /** The fields of the gateway's JSON reply that the route reads. */
  datatype ReplyBody = ReplyBody(id: Option<string>, status: Option<string>)

  /** How one gateway request ends: an HTTP response (its status, its body as
      text, and what parsing the body as JSON gives: the reply or the parse
      error's message), or a thrown value (its message when it is an `Error`). */
  datatype GatewayOutcome =
    | Responded(httpStatus: nat, text: string, json: Result<ReplyBody, string>)
    | Threw(message: Option<string>)

  /** The body of one gateway request. */
  datatype CallRequest = CallRequest(assistantId: string, number: string, phoneNumberId: string)

  type Gateway = (nat, CallRequest) -> GatewayOutcome
  type Clock = nat -> string

  /** What the dispatch does observably: a gateway call or a pause of `ms` milliseconds. */
  datatype Event = Call(request: CallRequest) | Sleep(ms: int)

  /** The server's environment; only the source phone-number id is read here. */
  datatype Config = Config(phoneNumberId: Option<string>)

  datatype ResponseBody = ErrorBody(error: string) | OkBody(outcome: MakeCallsResponse)
  datatype Response = Response(httpStatus: nat, body: ResponseBody)

  /** `response.ok`. */
  predicate IsOkStatus(httpStatus: nat)
  {
    200 <= httpStatus <= 299
  }

  /** The gateway placed the call: a 2xx response whose body parsed. */
  predicate Accepted(outcome: GatewayOutcome)
  {
    outcome.Responded? && IsOkStatus(outcome.httpStatus) && outcome.json.Ok?
  }

  /** `API error: <status> - <body>`: the fixed prefix, the status in decimal
      (it reads back as the status), the separator, then the body verbatim. */
  function ApiErrorMessage(httpStatus: nat, text: string): (m: string)
    ensures |m| >= 15 + |text| && m[..11] == "API error: " && m[|m| - |text|..] == text
    ensures m[|m| - |text| - 3..|m| - |text|] == " - "
    ensures IsCanonicalDecimal(m[11..|m| - |text| - 3]) && ParseDecimal(m[11..|m| - |text| - 3]) == httpStatus
  {
    var digits := DecimalString(httpStatus);
    var m := "API error: " + digits + " - " + text;
    assert m[11..|m| - |text| - 3] == digits;
    DecimalRoundTrip(httpStatus);
    m
  }

  /** The contract of `ApiErrorMessage` fixes the text: any string with that
      prefix, a canonical numeral for the status, the separator and the body
      is exactly the interpolated message. */
  lemma ApiErrorMessageDetermined(m: string, httpStatus: nat, text: string)
    requires |m| >= 15 + |text| && m[..11] == "API error: " && m[|m| - |text|..] == text
    requires m[|m| - |text| - 3..|m| - |text|] == " - "
    requires IsCanonicalDecimal(m[11..|m| - |text| - 3]) && ParseDecimal(m[11..|m| - |text| - 3]) == httpStatus
    ensures m == "API error: " + DecimalString(httpStatus) + " - " + text
  {
    var digits := m[11..|m| - |text| - 3];
    CanonicalDecimalUnique(digits);
    assert m == m[..11] + digits + m[|m| - |text| - 3..|m| - |text|] + m[|m| - |text|..];
  }

  function FailedResult(number: string, message: string, timestamp: string): (r: CallResult)
    ensures !Truthy(r.callId)
    ensures Truthy(r.error) <==> message != []
  {
    CallResult(number, None, Some(FailedStatus), Some(message), timestamp)
  }

  /** `makeSingleCall`: every outcome becomes a result for `number`. A placed
      call carries the gateway's id and status and no error; anything else
      carries an error, the status "failed" and no id. */
  function MakeSingleCall(number: string, outcome: GatewayOutcome, timestamp: string): (r: CallResult)
    ensures r.number == number && r.timestamp == timestamp
    ensures r.error.None? <==> Accepted(outcome)
    ensures r.error.Some? ==> r.callId.None? && r.status == Some(FailedStatus)
    ensures Accepted(outcome) ==> r.callId == outcome.json.value.id && r.status == outcome.json.value.status
    ensures outcome.Responded? && !IsOkStatus(outcome.httpStatus) ==>
      r.error == Some(ApiErrorMessage(outcome.httpStatus, outcome.text))
    ensures outcome.Threw? ==> r.error == Some(outcome.message.GetOr(UnknownError))
    ensures outcome.Responded? && IsOkStatus(outcome.httpStatus) && outcome.json.Err? ==>
      r.error == Some(outcome.json.error)
  {
    match outcome
    case Threw(message) => FailedResult(number, message.GetOr(UnknownError), timestamp)
    case Responded(httpStatus, text, json) =>
      if !IsOkStatus(httpStatus) then FailedResult(number, ApiErrorMessage(httpStatus, text), timestamp)
      else
        match json
        case Err(message) => FailedResult(number, message, timestamp)
        case Ok(reply) => CallResult(number, reply.id, reply.status, None, timestamp)
  }

  /** An outcome whose result the counts classify: a placed call has a
      non-empty id, a thrown `Error` has a non-empty message. */
  predicate CleanOutcome(outcome: GatewayOutcome)
  {
    match outcome
    case Threw(message) => message.None? || message.value != []
    case Responded(httpStatus, _, json) =>
      !IsOkStatus(httpStatus) || (json.Err? && json.error != []) || (json.Ok? && Truthy(json.value.id))
  }

  /** A result never has both a truthy id and a truthy error; for a clean
      outcome it has exactly one of them. */
  lemma {:induction false} ResultClassification(number: string, outcome: GatewayOutcome, timestamp: string)
    ensures var r := MakeSingleCall(number, outcome, timestamp);
      !(Truthy(r.callId) && Truthy(r.error)) &&
      (CleanOutcome(outcome) ==> Truthy(r.callId) != Truthy(r.error))
  {
    if outcome.Responded? && !IsOkStatus(outcome.httpStatus) {
      var m := ApiErrorMessage(outcome.httpStatus, outcome.text);
      assert |m| > 0;
    }
  }

  /** `results.filter(r => r.callId).length`. */
  function SuccessfulCalls(results: seq<CallResult>): (n: nat)
    ensures n <= |results|
  {
    if results == [] then 0
    else (if Truthy(results[0].callId) then 1 else 0) + SuccessfulCalls(results[1..])
  }

  /** `results.filter(r => r.error).length`. */
  function FailedCalls(results: seq<CallResult>): (n: nat)
    ensures n <= |results|
  {
    if results == [] then 0
    else (if Truthy(results[0].error) then 1 else 0) + FailedCalls(results[1..])
  }

  /** The two counts never exceed the total when no result is in both buckets. */
  lemma {:induction false} CountsWithinTotal(results: seq<CallResult>)
    requires forall k :: 0 <= k < |results| ==> !(Truthy(results[k].callId) && Truthy(results[k].error))
    ensures SuccessfulCalls(results) + FailedCalls(results) <= |results|
  {
    if results != [] {
      CountsWithinTotal(results[1..]);
    }
  }

  /** The two counts add up to the total when every result is in exactly one bucket. */
  lemma {:induction false} CountsPartition(results: seq<CallResult>)
    requires forall k :: 0 <= k < |results| ==> Truthy(results[k].callId) != Truthy(results[k].error)
    ensures SuccessfulCalls(results) + FailedCalls(results) == |results|
  {
    if results != [] {
      CountsPartition(results[1..]);
    }
  }

  /** A 2xx reply whose id is missing or empty gives a result in neither
      bucket, so the counts of a run can fall short of the total. */
  lemma ReplyWithoutIdIsUncounted(
    number: string, httpStatus: nat, text: string, reply: ReplyBody, timestamp: string)
    requires IsOkStatus(httpStatus) && !Truthy(reply.id)
    ensures var r := MakeSingleCall(number, Responded(httpStatus, text, Ok(reply)), timestamp);
      SuccessfulCalls([r]) == 0 && FailedCalls([r]) == 0
  {
    var r := MakeSingleCall(number, Responded(httpStatus, text, Ok(reply)), timestamp);
    assert [r][1..] == [];
  }

  /** The validated input of the dispatch loop. */
  datatype Job = Job(assistantId: string, phoneNumbers: seq<string>, phoneNumberId: string, delay: int)

  function RequestFor(job: Job, number: string): CallRequest
  {
    CallRequest(job.assistantId, number, job.phoneNumberId)
  }

  /** What the loop does at raw index `i`: nothing for a blank entry; otherwise
      one call with the trimmed number, then a pause unless `i` is the last raw index. */
  function EventsAt(job: Job, i: nat): (events: seq<Event>)
    requires i < |job.phoneNumbers|
    ensures events == [] <==> AllWhitespace(job.phoneNumbers[i])
    ensures events != [] ==> events[0] == Call(RequestFor(job, Trim(job.phoneNumbers[i])))
    ensures |events| == 2 <==> !AllWhitespace(job.phoneNumbers[i]) && i < |job.phoneNumbers| - 1
    ensures |events| == 2 ==> events[1] == Sleep(job.delay)
    ensures |events| == if AllWhitespace(job.phoneNumbers[i]) then 0
      else if i < |job.phoneNumbers| - 1 then 2 else 1
  {
    var number := Trim(job.phoneNumbers[i]);
    if number == [] then []
    else [Call(RequestFor(job, number))] + (if i < |job.phoneNumbers| - 1 then [Sleep(job.delay)] else [])
  }

  /** The events of the first `i` iterations of the loop. */
  function TraceUpTo(job: Job, i: nat): seq<Event>
    requires i <= |job.phoneNumbers|
  {
    if i == 0 then [] else TraceUpTo(job, i - 1) + EventsAt(job, i - 1)
  }

  function Trace(job: Job): seq<Event>
  {
    TraceUpTo(job, |job.phoneNumbers|)
  }

  /** The requests of the gateway calls in a trace, in order. */
  function Requests(trace: seq<Event>): seq<CallRequest>
  {
    if trace == [] then []
    else
      var last := trace[|trace| - 1];
      Requests(trace[..|trace| - 1]) + (if last.Call? then [last.request] else [])
  }

  /** The number of pauses in a trace. */
  function SleepCount(trace: seq<Event>): nat
  {
    if trace == [] then 0
    else SleepCount(trace[..|trace| - 1]) + (if trace[|trace| - 1].Sleep? then 1 else 0)
  }

  function RequestsFor(job: Job, numbers: seq<string>): (rs: seq<CallRequest>)
    ensures |rs| == |numbers|
  {
    seq(|numbers|, k requires 0 <= k < |numbers| => RequestFor(job, numbers[k]))
  }

  lemma {:induction false} RequestsAppend(a: seq<Event>, b: seq<Event>)
    ensures Requests(a + b) == Requests(a) + Requests(b)
  {
    if b == [] {
      assert a + b == a;
    } else {
      var b' := b[..|b| - 1];
      assert (a + b)[..|a + b| - 1] == a + b';
      RequestsAppend(a, b');
    }
  }

  lemma {:induction false} SleepCountAppend(a: seq<Event>, b: seq<Event>)
    ensures SleepCount(a + b) == SleepCount(a) + SleepCount(b)
  {
    if b == [] {
      assert a + b == a;
    } else {
      var b' := b[..|b| - 1];
      assert (a + b)[..|a + b| - 1] == a + b';
      SleepCountAppend(a, b');
    }
  }

  /** The calls for `numbers`, in order, with one pause of `delay` between
      each two consecutive calls: an independent description of the trace. */
  function Separated(job: Job, numbers: seq<string>): seq<Event>
  {
    if numbers == [] then []
    else if |numbers| == 1 then [Call(RequestFor(job, numbers[0]))]
    else Separated(job, numbers[..|numbers| - 1]) + [Sleep(job.delay), Call(RequestFor(job, numbers[|numbers| - 1]))]
  }

  /** A separated trace followed by one more pause, or nothing for no calls:
      the trace of the loop part-way through the list. */
  function PausedAfter(job: Job, numbers: seq<string>): seq<Event>
  {
    if numbers == [] then [] else Separated(job, numbers) + [Sleep(job.delay)]
  }

  lemma {:induction false} PausedAfterSnoc(job: Job, numbers: seq<string>, number: string)
    ensures PausedAfter(job, numbers + [number])
      == PausedAfter(job, numbers) + [Call(RequestFor(job, number)), Sleep(job.delay)]
  {
    var after := numbers + [number];
    assert after[..|after| - 1] == numbers;
    if numbers == [] {
      assert after == [number];
    }
  }

  /** The entries kept from the first `i + 1` raw entries: those of the first `i`, then the next one's. */
  lemma {:induction false} NumbersStep(ps: seq<string>, i: nat)
    requires i < |ps|
    ensures TrimAndDropBlank(ps[..i + 1]) == TrimAndDropBlank(ps[..i]) + Kept(ps[i])
    ensures Trim(ps[i]) == [] ==> TrimAndDropBlank(ps[..i + 1]) == TrimAndDropBlank(ps[..i])
  {
    assert ps[..i + 1] == ps[..i] + [ps[i]];
    TrimAndDropBlankSnoc(ps[..i], ps[i]);
    if Trim(ps[i]) == [] {
      assert Kept(ps[i]) == [];
      assert TrimAndDropBlank(ps[..i]) + Kept(ps[i]) == TrimAndDropBlank(ps[..i]);
    }
  }

  lemma {:induction false} TraceStep(job: Job, i: nat)
    requires i < |job.phoneNumbers|
    ensures TraceUpTo(job, i + 1) == TraceUpTo(job, i) + EventsAt(job, i)
  {
  }

  /** One iteration before the last raw index keeps the trace in the
      "every call followed by a pause" shape. */
  lemma {:induction false} StepBeforeLast(job: Job, i: nat, t: seq<Event>)
    requires i < |job.phoneNumbers| - 1
    requires t == PausedAfter(job, TrimAndDropBlank(job.phoneNumbers[..i]))
    ensures t + EventsAt(job, i) == PausedAfter(job, TrimAndDropBlank(job.phoneNumbers[..i + 1]))
  {
    var ps := job.phoneNumbers;
    NumbersStep(ps, i);
    var number := Trim(ps[i]);
    if number != [] {
      PausedAfterSnoc(job, TrimAndDropBlank(ps[..i]), number);
    } else {
      assert EventsAt(job, i) == [];
      assert t + [] == t;
    }
  }

  /** The iteration at the last raw index makes its call, if any, without a pause. */
  lemma {:induction false} StepAtLast(job: Job, t: seq<Event>)
    requires |job.phoneNumbers| > 0
    requires t == PausedAfter(job, TrimAndDropBlank(job.phoneNumbers[..|job.phoneNumbers| - 1]))
    ensures t + EventsAt(job, |job.phoneNumbers| - 1) == ExpectedTrace(job)
  {
    var ps := job.phoneNumbers;
    var n := |ps|;
    var before := TrimAndDropBlank(ps[..n - 1]);
    var number := Trim(ps[n - 1]);
    NumbersStep(ps, n - 1);
    assert ps[..n] == ps;
    if number != [] {
      LastNonBlank(job, before, number);
    } else {
      LastBlank(job, before);
      assert t + [] == t;
    }
  }

  lemma {:induction false} LastNonBlank(job: Job, before: seq<string>, number: string)
    requires |job.phoneNumbers| > 0 && number != []
    requires number == Trim(job.phoneNumbers[|job.phoneNumbers| - 1])
    requires TrimAndDropBlank(job.phoneNumbers) == before + [number]
    ensures EventsAt(job, |job.phoneNumbers| - 1) == [Call(RequestFor(job, number))]
    ensures PausedAfter(job, before) + [Call(RequestFor(job, number))] == ExpectedTrace(job)
  {
    LastCall(job, before, number);
  }

  lemma {:induction false} LastBlank(job: Job, before: seq<string>)
    requires |job.phoneNumbers| > 0 && Trim(job.phoneNumbers[|job.phoneNumbers| - 1]) == []
    requires TrimAndDropBlank(job.phoneNumbers) == before
    ensures EventsAt(job, |job.phoneNumbers| - 1) == []
    ensures PausedAfter(job, before) == ExpectedTrace(job)
  {
    assert ExpectedTrace(job) == Separated(job, before) + TrailingPause(job);
  }

  lemma {:induction false} LastCall(job: Job, before: seq<string>, number: string)
    ensures PausedAfter(job, before) + [Call(RequestFor(job, number))] == Separated(job, before + [number])
  {
    var after := before + [number];
    assert after[..|after| - 1] == before;
    if before == [] {
      assert after == [number];
    }
  }

  /** Before the last raw index every call made so far has been followed by a pause. */
  lemma {:induction false} TraceBeforeLast(job: Job, i: nat)
    requires i < |job.phoneNumbers|
    ensures TraceUpTo(job, i) == PausedAfter(job, TrimAndDropBlank(job.phoneNumbers[..i]))
  {
    if i == 0 {
      assert job.phoneNumbers[..0] == [];
    } else {
      TraceBeforeLast(job, i - 1);
      TraceStep(job, i - 1);
      StepBeforeLast(job, i - 1, TraceUpTo(job, i - 1));
    }
  }

  /** The whole trace: the calls for the non-blank entries, in input order,
      one pause between each two, and one more pause at the end exactly when
      a call was made and the last raw entry is blank. */
  function ExpectedTrace(job: Job): seq<Event>
  {
    Separated(job, TrimAndDropBlank(job.phoneNumbers)) + TrailingPause(job)
  }

  /** The pause left after the last call when the last raw entry is blank. */
  function TrailingPause(job: Job): seq<Event>
  {
    var ps := job.phoneNumbers;
    if TrimAndDropBlank(ps) != [] && Trim(ps[|ps| - 1]) == [] then [Sleep(job.delay)] else []
  }

  lemma {:induction false} TraceIsSeparated(job: Job)
    ensures Trace(job) == ExpectedTrace(job)
  {
    var n := |job.phoneNumbers|;
    if n > 0 {
      TraceBeforeLast(job, n - 1);
      TraceAtLast(job);
    } else {
      assert TrimAndDropBlank(job.phoneNumbers) == [];
    }
  }

  lemma {:induction false} TraceAtLast(job: Job)
    requires |job.phoneNumbers| > 0
    requires TraceUpTo(job, |job.phoneNumbers| - 1)
      == PausedAfter(job, TrimAndDropBlank(job.phoneNumbers[..|job.phoneNumbers| - 1]))
    ensures Trace(job) == ExpectedTrace(job)
  {
    var n := |job.phoneNumbers|;
    TraceStep(job, n - 1);
    StepAtLast(job, TraceUpTo(job, n - 1));
  }

  /** The calls of a separated trace are the requests for its numbers, in order. */
  lemma {:induction false} SeparatedRequests(job: Job, numbers: seq<string>)
    ensures Requests(Separated(job, numbers)) == RequestsFor(job, numbers)
  {
    if |numbers| == 1 {
      RequestsOfCall(RequestFor(job, numbers[0]));
    } else if |numbers| > 1 {
      var prefix := numbers[..|numbers| - 1];
      var last := RequestFor(job, numbers[|numbers| - 1]);
      SeparatedRequests(job, prefix);
      RequestsAppend(Separated(job, prefix), [Sleep(job.delay), Call(last)]);
      RequestsOfPauseCall(job.delay, last);
      RequestsForSnoc(job, prefix, numbers[|numbers| - 1]);
      assert prefix + [numbers[|numbers| - 1]] == numbers;
    }
  }

  lemma RequestsOfCall(request: CallRequest)
    ensures Requests([Call(request)]) == [request]
  {
    assert [Call(request)][..0] == [];
  }

  lemma RequestsOfPauseCall(ms: int, request: CallRequest)
    ensures Requests([Sleep(ms), Call(request)]) == [request]
  {
    var pair := [Sleep(ms), Call(request)];
    assert pair[..1] == [Sleep(ms)];
    assert pair[..1][..0] == [];
    assert Requests(pair[..1]) == [];
  }

  lemma RequestsForSnoc(job: Job, numbers: seq<string>, number: string)
    ensures RequestsFor(job, numbers + [number]) == RequestsFor(job, numbers) + [RequestFor(job, number)]
  {
    var longer := numbers + [number];
    forall k | 0 <= k < |longer|
      ensures RequestsFor(job, longer)[k] == (RequestsFor(job, numbers) + [RequestFor(job, number)])[k]
    {
      if k < |numbers| {
        assert longer[k] == numbers[k];
      }
    }
  }

  /** A separated trace of `m > 0` calls holds `m - 1` pauses. */
  lemma {:induction false} SeparatedPauses(job: Job, numbers: seq<string>)
    ensures SleepCount(Separated(job, numbers)) == if numbers == [] then 0 else |numbers| - 1
  {
    if |numbers| == 1 {
      assert [Call(RequestFor(job, numbers[0]))][..0] == [];
    } else if |numbers| > 1 {
      var prefix := numbers[..|numbers| - 1];
      var last := RequestFor(job, numbers[|numbers| - 1]);
      SeparatedPauses(job, prefix);
      SleepCountAppend(Separated(job, prefix), [Sleep(job.delay), Call(last)]);
      PausesOfPauseCall(job.delay, last);
    }
  }

  lemma PausesOfPauseCall(ms: int, request: CallRequest)
    ensures SleepCount([Sleep(ms), Call(request)]) == 1
  {
    var pair := [Sleep(ms), Call(request)];
    assert pair[..1] == [Sleep(ms)];
    assert pair[..1][..0] == [];
    assert SleepCount(pair[..1]) == 1;
  }

  /** The gateway is called exactly once per non-blank entry, in input order,
      with the trimmed number; the gateway's answers play no part in this. */
  lemma {:induction false} CallsOncePerEntry(job: Job)
    ensures Requests(Trace(job)) == RequestsFor(job, TrimAndDropBlank(job.phoneNumbers))
  {
    var numbers := TrimAndDropBlank(job.phoneNumbers);
    TraceIsSeparated(job);
    SeparatedRequests(job, numbers);
    RequestsAppend(Separated(job, numbers), TrailingPause(job));
    TrailingPauseCounts(job);
    assert RequestsFor(job, numbers) + [] == RequestsFor(job, numbers);
  }

  /** A pause follows a call exactly when that call's raw index is not the
      last: so the pauses number the non-blank entries before the last raw
      index, which is at most one fewer than the raw entries. */
  lemma {:induction false} PauseCount(job: Job)
    requires |job.phoneNumbers| > 0
    ensures var n := |job.phoneNumbers|;
      && SleepCount(Trace(job)) == |TrimAndDropBlank(job.phoneNumbers[..n - 1])|
      && SleepCount(Trace(job)) <= n - 1
  {
    var numbers := TrimAndDropBlank(job.phoneNumbers);
    TraceIsSeparated(job);
    SeparatedPauses(job, numbers);
    SleepCountAppend(Separated(job, numbers), TrailingPause(job));
    TrailingPauseCounts(job);
    PausesBeforeLast(job);
  }

  /** The pauses between the calls plus the trailing one number the non-blank
      entries before the last raw index. */
  lemma PausesBeforeLast(job: Job)
    requires |job.phoneNumbers| > 0
    ensures var numbers := TrimAndDropBlank(job.phoneNumbers);
      (if numbers == [] then 0 else |numbers| - 1) + |TrailingPause(job)|
        == |TrimAndDropBlank(job.phoneNumbers[..|job.phoneNumbers| - 1])|
  {
    var ps := job.phoneNumbers;
    var n := |ps|;
    var before := TrimAndDropBlank(ps[..n - 1]);
    assert ps == ps[..n - 1] + [ps[n - 1]];
    TrimAndDropBlankSnoc(ps[..n - 1], ps[n - 1]);
    if Trim(ps[n - 1]) == [] {
      assert before + Kept(ps[n - 1]) == before;
    }
  }

  /** The trailing pause holds no call, and one pause exactly when a call was
      made and the last raw entry is blank. */
  lemma TrailingPauseCounts(job: Job)
    ensures Requests(TrailingPause(job)) == []
    ensures SleepCount(TrailingPause(job)) == |TrailingPause(job)|
  {
    PauseOnly(job.delay);
  }

  /** A lone pause holds one pause and no call. */
  lemma PauseOnly(ms: int)
    ensures Requests([Sleep(ms)]) == [] && SleepCount([Sleep(ms)]) == 1
  {
    assert [Sleep(ms)][..0] == [];
  }

  /** The pause depends on the raw index, not on what follows: a blank last
      entry still leaves a pause after the last real call. */
  lemma TrailingBlankStillPauses(job: Job, number: string, blank: string)
    requires job.phoneNumbers == [number, blank]
    requires IsCleanEntry(number) && AllWhitespace(blank)
    ensures Trace(job) == [Call(RequestFor(job, number)), Sleep(job.delay)]
  {
    var call := Call(RequestFor(job, number));
    assert EventsAt(job, 0) == [call, Sleep(job.delay)];
    assert EventsAt(job, 1) == [];
    assert TraceUpTo(job, 1) == [call, Sleep(job.delay)] by {
      TraceStep(job, 0);
    }
    TraceStep(job, 1);
  }

  /** `results` holds, in order, the outcome of calling each of `numbers`,
      the `k`-th call being the gateway's `k`-th. */
  predicate ResultsMatch(job: Job, gateway: Gateway, clock: Clock, numbers: seq<string>, results: seq<CallResult>)
  {
    && |results| == |numbers|
    && forall k :: 0 <= k < |results| ==>
         results[k] == MakeSingleCall(numbers[k], gateway(k, RequestFor(job, numbers[k])), clock(k))
  }

  lemma ResultsMatchSnoc(job: Job, gateway: Gateway, clock: Clock, numbers: seq<string>, results: seq<CallResult>, number: string)
    requires ResultsMatch(job, gateway, clock, numbers, results)
    ensures ResultsMatch(job, gateway, clock, numbers + [number],
      results + [MakeSingleCall(number, gateway(|results|, RequestFor(job, number)), clock(|results|))])
  {
  }

  /** A blank raw entry leaves the trace and the results as they are. */
  lemma {:induction false} BlankStep(job: Job, gateway: Gateway, clock: Clock, i: nat, trace: seq<Event>, results: seq<CallResult>)
    requires i < |job.phoneNumbers| && Trim(job.phoneNumbers[i]) == []
    requires trace == TraceUpTo(job, i)
    requires ResultsMatch(job, gateway, clock, TrimAndDropBlank(job.phoneNumbers[..i]), results)
    ensures trace == TraceUpTo(job, i + 1)
    ensures ResultsMatch(job, gateway, clock, TrimAndDropBlank(job.phoneNumbers[..i + 1]), results)
  {
    TraceStep(job, i);
    NumbersStep(job.phoneNumbers, i);
    assert EventsAt(job, i) == [];
    assert trace + [] == trace;
  }

  /** A non-blank raw entry adds its call, then a pause unless it is the last
      raw entry, and the result of the gateway's next call. */
  lemma {:induction false} CallStep(job: Job, gateway: Gateway, clock: Clock, i: nat, trace: seq<Event>, results: seq<CallResult>)
    requires i < |job.phoneNumbers| && Trim(job.phoneNumbers[i]) != []
    requires trace == TraceUpTo(job, i)
    requires ResultsMatch(job, gateway, clock, TrimAndDropBlank(job.phoneNumbers[..i]), results)
    ensures var request := RequestFor(job, Trim(job.phoneNumbers[i]));
      && (i < |job.phoneNumbers| - 1 ==> trace + [Call(request)] + [Sleep(job.delay)] == TraceUpTo(job, i + 1))
      && (i == |job.phoneNumbers| - 1 ==> trace + [Call(request)] == TraceUpTo(job, i + 1))
    ensures var number := Trim(job.phoneNumbers[i]);
      ResultsMatch(job, gateway, clock, TrimAndDropBlank(job.phoneNumbers[..i + 1]),
        results + [MakeSingleCall(number, gateway(|results|, RequestFor(job, number)), clock(|results|))])
  {
    var number := Trim(job.phoneNumbers[i]);
    TraceStep(job, i);
    NumbersStep(job.phoneNumbers, i);
    assert Kept(job.phoneNumbers[i]) == [number];
    ResultsMatchSnoc(job, gateway, clock, TrimAndDropBlank(job.phoneNumbers[..i]), results, number);
  }

  /** The dispatch loop: walks the numbers in order, trims each, skips blank
      ones, calls the gateway once per remaining one and appends the result,
      and pauses after each call made before the last raw index. A failed call
      does not stop the loop. */
  method Dispatch(job: Job, gateway: Gateway, clock: Clock) returns (results: seq<CallResult>, ghost trace: seq<Event>)
    ensures trace == Trace(job)
    ensures ResultsMatch(job, gateway, clock, TrimAndDropBlank(job.phoneNumbers), results)
  {
    var ps := job.phoneNumbers;
    results := [];
    trace := [];
    for i := 0 to |ps|
      invariant trace == TraceUpTo(job, i)
      invariant ResultsMatch(job, gateway, clock, TrimAndDropBlank(ps[..i]), results)
    {
      var phoneNumber := Trim(ps[i]);
      if phoneNumber == [] {
        BlankStep(job, gateway, clock, i, trace, results);
        continue;
      }
      CallStep(job, gateway, clock, i, trace, results);
      var request := RequestFor(job, phoneNumber);
      trace := trace + [Call(request)];
      var result := MakeSingleCall(phoneNumber, gateway(|results|, request), clock(|results|));
      results := results + [result];
      if i < |ps| - 1 {
        trace := trace + [Sleep(job.delay)];
      }
    }
    assert ps[..|ps|] == ps;
  }

  /** The request passes validation: a non-empty assistant id and a non-empty list of numbers. */
  predicate HasRequiredFields(body: MakeCallsRequest)
  {
    Truthy(body.assistantId) && body.phoneNumbers.Some? && |body.phoneNumbers.value| > 0
  }

  /** The dispatch input of a validated request: its assistant and raw
      numbers, the configured source number, and its delay or 2000 ms when it
      has none. */
  function JobOf(body: MakeCallsRequest, phoneNumberId: string): (job: Job)
    requires HasRequiredFields(body)
    ensures job.assistantId == body.assistantId.value && job.assistantId != []
    ensures job.phoneNumbers == body.phoneNumbers.value && job.phoneNumbers != []
    ensures job.phoneNumberId == phoneNumberId
    ensures body.delay.None? ==> job.delay == DefaultDelay
    ensures body.delay.Some? ==> job.delay == body.delay.value
  {
    Job(body.assistantId.value, body.phoneNumbers.value, phoneNumberId, body.delay.GetOr(DefaultDelay))
  }

  /** `POST /api/make-calls`: 400 and no call for a request missing its fields;
      then 500 and no call when the source number id is not configured;
      otherwise 200 with one result per non-blank number, in order, and the
      counts of results with an id and with an error. */
  method Post(body: MakeCallsRequest, config: Config, gateway: Gateway, clock: Clock)
    returns (response: Response, ghost trace: seq<Event>)
    ensures !HasRequiredFields(body) ==> response == Response(400, ErrorBody(MissingFieldsError))
    ensures HasRequiredFields(body) && !Truthy(config.phoneNumberId) ==>
      response == Response(500, ErrorBody(MissingConfigError))
    ensures !(HasRequiredFields(body) && Truthy(config.phoneNumberId)) ==> trace == []
    ensures HasRequiredFields(body) && Truthy(config.phoneNumberId) ==>
      trace == Trace(JobOf(body, config.phoneNumberId.value))
    ensures HasRequiredFields(body) && Truthy(config.phoneNumberId) ==>
      var job := JobOf(body, config.phoneNumberId.value);
      var numbers := TrimAndDropBlank(job.phoneNumbers);
      && response.httpStatus == 200 && response.body.OkBody?
      && var outcome := response.body.outcome;
      && outcome.totalCalls == |outcome.results| == |numbers|
      && (forall k :: 0 <= k < |numbers| ==>
            outcome.results[k] == MakeSingleCall(numbers[k], gateway(k, RequestFor(job, numbers[k])), clock(k)))
      && outcome.successfulCalls == SuccessfulCalls(outcome.results)
      && outcome.failedCalls == FailedCalls(outcome.results)
      && outcome.successfulCalls + outcome.failedCalls <= outcome.totalCalls
      && ((forall k :: 0 <= k < |numbers| ==> CleanOutcome(gateway(k, RequestFor(job, numbers[k])))) ==>
            outcome.successfulCalls + outcome.failedCalls == outcome.totalCalls)
  {
    if !(Truthy(body.assistantId) && body.phoneNumbers.Some? && |body.phoneNumbers.value| > 0) {
      return Response(400, ErrorBody(MissingFieldsError)), [];
    }
    if !Truthy(config.phoneNumberId) {
      return Response(500, ErrorBody(MissingConfigError)), [];
    }
    var job := JobOf(body, config.phoneNumberId.value);
    var results;
    results, trace := Dispatch(job, gateway, clock);
    var outcome := MakeCallsResponse(results, |results|, SuccessfulCalls(results), FailedCalls(results));
    response := Response(200, OkBody(outcome));

    var numbers := TrimAndDropBlank(job.phoneNumbers);
    forall k | 0 <= k < |results|
      ensures !(Truthy(results[k].callId) && Truthy(results[k].error))
      ensures CleanOutcome(gateway(k, RequestFor(job, numbers[k]))) ==> Truthy(results[k].callId) != Truthy(results[k].error)
    {
      ResultClassification(numbers[k], gateway(k, RequestFor(job, numbers[k])), clock(k));
    }
    CountsWithinTotal(results);
    if forall k :: 0 <= k < |numbers| ==> CleanOutcome(gateway(k, RequestFor(job, numbers[k]))) {
      CountsPartition(results);
    }
  }
}
