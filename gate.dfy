/**
 What pressing "Generate Query" does: three checks in a fixed order, each
 with its own error message, and only when all pass the request to the
 generation endpoint and the parse of its reply. The key check and the
 request go over the network; their results come in as `keyValid` and
 `reply`, and the calls made are recorded in order.
 */
module Gate {
  import opened PyText
  import opened Reply
  import opened Prompt

  const MissingKey := "Please add your Google Gemini API key."
  const MissingTable := "Please enter target table details."
  const InvalidKey := "API key is invalid. Please check and try again."

  /** A network call the button makes. */
  datatype Call = VerifyKey(key: string) | Generate(key: string, prompt: string)

  /** What the page shows: an error message, the parsed reply, or a raised exception. */
  datatype Outcome = ShowError(message: string) | ShowAnswer(answer: Answer) | Raised(fault: Fault)

  /** The outcome of one press, and the calls made on the way, in order. */
  datatype Press = Press(outcome: Outcome, calls: seq<Call>)

  /** `target_table is None or target_table.empty`. */
  predicate TableMissing(t: Option<Table>) {
    t.None? || t.value.empty
  }

  /**
   The button handler. `keyValid` is what `verify_api_key` answers for
   `apiKey`; `reply` is what `generate_query` returns for the form (the
   endpoint's JSON, or the `{"error": ...}` dict).
   */
  function OnGenerate(apiKey: string, form: Form, keyValid: bool, reply: Json): (r: Press)
    ensures r.calls == [] || r.calls[0] == VerifyKey(apiKey)
    ensures |r.calls| <= 2
  {
    if apiKey == "" then Press(ShowError(MissingKey), [])
    else if TableMissing(form.targetTable) then Press(ShowError(MissingTable), [])
    else if !keyValid then Press(ShowError(InvalidKey), [VerifyKey(apiKey)])
    else
      var calls := [VerifyKey(apiKey), Generate(apiKey, PromptOf(form))];
      match ParseResponse(reply)
      case Ok(answer) => Press(ShowAnswer(answer), calls)
      case Err(fault) => Press(Raised(fault), calls)
  }

  /** Whether a press made a request to the generation endpoint. */
  predicate Generated(p: Press) {
    exists i | 0 <= i < |p.calls| :: p.calls[i].Generate?
  }
}
