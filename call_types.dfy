/** The records the route and the form exchange (types/index.ts). Optional
    TypeScript fields are `Option`s; the scheduling fields, which the route
    never reads or writes, are not represented. */
module CallTypes {
  import opened Wrappers

  /** One attempted call. `status` is whatever string the gateway sent back
      (the route casts it without checking), or "failed". */
  datatype CallResult = CallResult(
    number: string,
    callId: Option<string>,
    status: Option<string>,
    error: Option<string>,
    timestamp: string)

  /** The JSON body of a bulk-call request; a missing field is `None`. */
  datatype MakeCallsRequest = MakeCallsRequest(
    assistantId: Option<string>,
    phoneNumbers: Option<seq<string>>,
    delay: Option<int>)

  datatype MakeCallsResponse = MakeCallsResponse(
    results: seq<CallResult>,
    totalCalls: nat,
    successfulCalls: nat,
    failedCalls: nat)

  /** JavaScript truthiness of an optional string: present and non-empty. */
  predicate Truthy(field: Option<string>)
  {
    field.Some? && field.value != []
  }
}
