/**
  The outcome of one call to the speech provider (`synthesize_to_file` in
  generate_tts_azure_db.py): success exactly on a completed synthesis, and
  otherwise a human-readable message built from the result reason, the
  cancellation reason and the optional error details.
*/
module Synthesis {
  import opened Wrappers

  /** The provider's `ResultReason`; every member other than the two the code tests is `OtherReason`. */
  datatype Reason = SynthesizingAudioCompleted | Canceled | OtherReason(name: string)

  /**
    What `result.cancellation_details` offers: the rendered cancellation
    reason and the error details ("" when there are none).
  */
  datatype CancellationDetails = CancellationDetails(reason: string, errorDetails: string)

  datatype SpeechResult = SpeechResult(reason: Reason, cancellation: CancellationDetails)

  /** `(ok, err)` as the function returns it; `err` is None on success. */
  datatype Outcome = Outcome(ok: bool, error: Option<string>)

  const FailurePrefix: string := "TTS failed, reason="
  const CancelTag: string := ", cancel_reason="
  const DetailsTag: string := ", details="

  /** How an f-string renders a `ResultReason` member: the enum's class name, a dot, the member. */
  function ReasonText(r: Reason): string
  {
    "ResultReason." +
    match r
    case SynthesizingAudioCompleted => "SynthesizingAudioCompleted"
    case Canceled => "Canceled"
    case OtherReason(name) => name
  }

  /** The message head every failure carries. */
  function FailureHead(res: SpeechResult): string
  {
    FailurePrefix + ReasonText(res.reason)
  }

  function SynthesisOutcome(res: SpeechResult): (o: Outcome)
    // success exactly on a completed synthesis, and then no message
    ensures o.ok <==> res.reason == SynthesizingAudioCompleted
    ensures o.ok <==> o.error.None?
    // every failure message names the result reason first
    ensures !o.ok ==> FailurePrefix + ReasonText(res.reason) <= o.error.value
    // nothing follows the reason unless the synthesis was canceled
    ensures !o.ok && res.reason != Canceled ==> o.error == Some(FailureHead(res))
    // a cancellation appends its reason, and its details only when there are some
    ensures res.reason == Canceled && res.cancellation.errorDetails == "" ==>
              o.error == Some(FailureHead(res) + CancelTag + res.cancellation.reason)
    ensures res.reason == Canceled && res.cancellation.errorDetails != "" ==>
              o.error == Some(FailureHead(res) + CancelTag + res.cancellation.reason
                              + DetailsTag + res.cancellation.errorDetails)
  {
    if res.reason == SynthesizingAudioCompleted then Outcome(true, None)
    else
      var err := FailureHead(res);
      var err := if res.reason == Canceled then
                   var err := err + CancelTag + res.cancellation.reason;
                   if res.cancellation.errorDetails != "" then err + DetailsTag + res.cancellation.errorDetails
                   else err
                 else err;
      Outcome(false, Some(err))
  }

  /** A failure message says more than its prefix, and it carries the cancel tag right after the reason exactly when the synthesis was canceled. */
  lemma FailureMessageShape(res: SpeechResult)
    requires res.reason != SynthesizingAudioCompleted
    ensures var msg := SynthesisOutcome(res).error.value;
      |msg| > |FailurePrefix| &&
      (res.reason == Canceled <==> FailureHead(res) + CancelTag <= msg)
  {
    var msg := SynthesisOutcome(res).error.value;
    if res.reason != Canceled {
      assert msg == FailureHead(res);
      assert !(FailureHead(res) + CancelTag <= msg);
    } else {
      assert (FailureHead(res) + CancelTag + res.cancellation.reason)[..|FailureHead(res) + CancelTag|]
          == FailureHead(res) + CancelTag;
    }
  }
}
