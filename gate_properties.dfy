/**
 The order of the button's checks: a missing key is reported before anything
 else is looked at, a missing or empty target table next, a rejected key
 after that, and the request is made, with the prompt of the form, only when
 all three checks pass.
 */
module GateProperties {
  import opened PyText
  import opened Reply
  import opened Prompt
  import opened Gate
  import ReplyWalk

  /** An empty key is reported first, whatever the table, the key check or the reply. */
  lemma EmptyKeyFirst(apiKey: string, form: Form, keyValid: bool, reply: Json)
    requires apiKey == ""
    ensures OnGenerate(apiKey, form, keyValid, reply) == Press(ShowError(MissingKey), [])
  {
  }

  /** With a key, a missing or empty target table is reported before the key is checked. */
  lemma MissingTableSecond(apiKey: string, form: Form, keyValid: bool, reply: Json)
    requires apiKey != "" && TableMissing(form.targetTable)
    ensures OnGenerate(apiKey, form, keyValid, reply) == Press(ShowError(MissingTable), [])
  {
  }

  /** With a key and a table, a rejected key is reported after checking it, and nothing is generated. */
  lemma InvalidKeyThird(apiKey: string, form: Form, reply: Json)
    requires apiKey != "" && !TableMissing(form.targetTable)
    ensures OnGenerate(apiKey, form, false, reply) == Press(ShowError(InvalidKey), [VerifyKey(apiKey)])
  {
  }

  /**
   When every check passes, the key is checked, the prompt of the form is sent,
   and the page shows what `parse_response` makes of the reply (or the
   exception it raises).
   */
  lemma AllChecksPass(apiKey: string, form: Form, reply: Json)
    requires apiKey != "" && !TableMissing(form.targetTable)
    ensures var p := OnGenerate(apiKey, form, true, reply);
            && p.calls == [VerifyKey(apiKey), Generate(apiKey, PromptOf(form))]
            && (ParseResponse(reply).Ok? ==> p.outcome == ShowAnswer(ParseResponse(reply).value))
            && (ParseResponse(reply).Err? ==> p.outcome == Raised(ParseResponse(reply).fault))
  {
  }

  /** The request is made exactly when all three checks pass. */
  lemma GeneratesExactlyWhenChecksPass(apiKey: string, form: Form, keyValid: bool, reply: Json)
    ensures Generated(OnGenerate(apiKey, form, keyValid, reply))
        <==> apiKey != "" && !TableMissing(form.targetTable) && keyValid
  {
    var p := OnGenerate(apiKey, form, keyValid, reply);
    if apiKey != "" && !TableMissing(form.targetTable) && keyValid {
      assert p.calls[1].Generate?;
    }
  }

  /** A request that failed shows the sentinel query and nothing else. */
  lemma FailedRequestShowsSentinel(apiKey: string, form: Form, message: string)
    requires apiKey != "" && !TableMissing(form.targetTable)
    ensures OnGenerate(apiKey, form, true, ErrorReply(message)).outcome == ShowAnswer(NoAnswer)
  {
    ReplyWalk.ErrorReplyParses(message);
  }
}
