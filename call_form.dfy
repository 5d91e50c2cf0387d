/** The submit handler of the call form (`components/CallForm.tsx`): it picks
    the bulk text or the single-number field, turns it into a list of phone
    numbers and either alerts the user or hands the assistant, the numbers and
    the delay to the page. */
module CallForm {
  import opened Wrappers
  import opened JsString

  const NoAssistantAlert: string := "Please select an assistant"
  const NoNumberAlert: string := "Please enter at least one phone number"
  const NoValidNumberAlert: string := "Please enter at least one valid phone number"

  /** What a submit does: show an alert and stop, or call `onSubmit` with these arguments. */
  datatype Submission =
    | Alerted(message: string)
    | Submitted(assistantId: string, phoneNumbers: seq<string>, delay: int)

  /** The bulk text, one number per line: `split('\n')`, trim each line, drop
      empty lines. It yields nothing exactly when the text is all whitespace. */
  function BulkEntries(bulk: string): (numbers: seq<string>)
    ensures numbers == [] <==> AllWhitespace(bulk)
  {
    var lines := Split(bulk, '\n');
    JoinAllWhitespace(lines, '\n');
    TrimAndDropBlankEmpty(lines);
    TrimAndDropBlank(lines)
  }

  /** Every entry of the bulk list is non-empty, trimmed and a single line. */
  lemma BulkEntriesClean(bulk: string)
    ensures forall k :: 0 <= k < |BulkEntries(bulk)| ==>
      IsCleanEntry(BulkEntries(bulk)[k]) && '\n' !in BulkEntries(bulk)[k]
  {
    TrimAndDropBlankClean(Split(bulk, '\n'));
    TrimAndDropBlankAvoids(Split(bulk, '\n'), '\n');
  }

  /** Typing clean numbers one per line gives back exactly those numbers, in that order. */
  lemma BulkEntriesOfLines(numbers: seq<string>)
    requires forall k :: 0 <= k < |numbers| ==> IsCleanEntry(numbers[k]) && '\n' !in numbers[k]
    ensures BulkEntries(Join(numbers, '\n')) == numbers
  {
    if numbers == [] {
      assert AllWhitespace(Join(numbers, '\n'));
      return;
    }
    SplitJoin(numbers, '\n');
    TrimAndDropBlankOfClean(numbers);
  }

  /** `handleSubmit`, over the selected assistant id, the two text fields and the
      delay. Without an assistant it alerts. A bulk text that is not all
      whitespace wins over the single field; failing both it alerts. The
      zero-length alert of the source is never produced: a non-blank bulk text
      always yields an entry. An accepted submission passes the assistant and
      the delay unchanged and only non-empty, trimmed numbers. */
  function HandleSubmit(selectedAssistant: string, singleNumber: string, bulkNumbers: string, delay: int): (s: Submission)
    ensures selectedAssistant == [] ==> s == Alerted(NoAssistantAlert)
    ensures selectedAssistant != [] && !AllWhitespace(bulkNumbers) ==>
      s == Submitted(selectedAssistant, BulkEntries(bulkNumbers), delay)
    ensures selectedAssistant != [] && AllWhitespace(bulkNumbers) && !AllWhitespace(singleNumber) ==>
      s == Submitted(selectedAssistant, [Trim(singleNumber)], delay)
    ensures selectedAssistant != [] && AllWhitespace(bulkNumbers) && AllWhitespace(singleNumber) ==>
      s == Alerted(NoNumberAlert)
    ensures s != Alerted(NoValidNumberAlert)
    ensures s.Submitted? ==>
      s.phoneNumbers != [] && forall k :: 0 <= k < |s.phoneNumbers| ==> IsCleanEntry(s.phoneNumbers[k])
  {
    if selectedAssistant == [] then
      Alerted(NoAssistantAlert)
    else
      var phoneNumbers: Option<seq<string>> :=
        if Trim(bulkNumbers) != [] then
          BulkEntriesClean(bulkNumbers);
          Some(BulkEntries(bulkNumbers))
        else if Trim(singleNumber) != [] then
          Some([Trim(singleNumber)])
        else
          None;
      if phoneNumbers.None? then
        Alerted(NoNumberAlert)
      else if |phoneNumbers.value| == 0 then
        Alerted(NoValidNumberAlert)
      else
        Submitted(selectedAssistant, phoneNumbers.value, delay)
  }
}
