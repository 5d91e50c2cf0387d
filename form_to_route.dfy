/** What the route does with a list the form accepted. The page posts the
    form's `(assistantId, phoneNumbers, delay)` as the request body; since the
    form only passes non-empty, trimmed numbers, the route's own trim and
    blank-skipping change nothing, every number is called once, in order, and
    the calls are separated by exactly one pause each, with none at the end. */
module FormToRoute {
  import opened Wrappers
  import opened JsString
  import opened CallTypes
  import opened CallForm
  import opened MakeCalls

  /** The request body the page sends for an accepted submission. */
  function RequestOf(s: Submission): (body: MakeCallsRequest)
    requires s.Submitted?
    ensures HasRequiredFields(body) <==> s.assistantId != [] && s.phoneNumbers != []
  {
    MakeCallsRequest(Some(s.assistantId), Some(s.phoneNumbers), Some(s.delay))
  }

  lemma {:induction false} FormFeedsRoute(
    selectedAssistant: string, singleNumber: string, bulkNumbers: string, delay: int, phoneNumberId: string)
    requires HandleSubmit(selectedAssistant, singleNumber, bulkNumbers, delay).Submitted?
    ensures var s := HandleSubmit(selectedAssistant, singleNumber, bulkNumbers, delay);
      var body := RequestOf(s);
      && HasRequiredFields(body)
      && var job := JobOf(body, phoneNumberId);
      && job == Job(selectedAssistant, s.phoneNumbers, phoneNumberId, delay)
      && (forall k :: 0 <= k < |s.phoneNumbers| ==> Trim(s.phoneNumbers[k]) == s.phoneNumbers[k])
      && TrimAndDropBlank(s.phoneNumbers) == s.phoneNumbers
      && Trace(job) == Separated(job, s.phoneNumbers)
      && Requests(Trace(job)) == RequestsFor(job, s.phoneNumbers)
      && SleepCount(Trace(job)) == |s.phoneNumbers| - 1
  {
    var s := HandleSubmit(selectedAssistant, singleNumber, bulkNumbers, delay);
    var numbers := s.phoneNumbers;
    var job := JobOf(RequestOf(s), phoneNumberId);
    TrimAndDropBlankOfClean(numbers);
    TraceIsSeparated(job);
    assert Trim(numbers[|numbers| - 1]) != [];
    assert Trace(job) == Separated(job, numbers) + [];
    SeparatedRequests(job, numbers);
    SeparatedPauses(job, numbers);
  }
}
