/** auto_authorize_handler.py: requests are applied at once, and the
    command fails when any target failed. */
module AutoHandler {
  import opened AuthTypes
  import opened BaseHandler

  /** The verdict on a dispatch, as the handler evidently intends it: a
      validation error propagates, a clean outcome returns normally, and any
      failed target raises RuntimeError carrying the failed map and the
      succeeded set. */
  function Verdict(dispatched: Result<Outcome>): (r: Result<()>)
    ensures dispatched.Err? ==> r == Err(dispatched.error)
    ensures dispatched.Ok? ==> (r.Ok? <==> dispatched.value.failedMessages == map[])
    ensures dispatched.Ok? && r.Err? ==>
      r.error == PartialFailure(dispatched.value.failedMessages, dispatched.value.succeeded)
  {
    var o :- dispatched;
    if |o.failedMessages| > 0 then Err(PartialFailure(o.failedMessages, o.succeeded)) else Ok(())
  }

  /** The verdict as the handler is written: it reads
      `self.csc_failed_messages`, an attribute that neither this class nor
      BaseAuthorizeHandler ever assigns (process_authorize_request keeps its
      results in locals and returns them), so after every dispatch that
      returns the attribute lookup raises AttributeError. */
  function VerdictAsWritten(dispatched: Result<Outcome>): (r: Result<()>)
    ensures dispatched.Err? ==> r == Err(dispatched.error)
    ensures dispatched.Ok? ==> r == Err(MissingAttribute("csc_failed_messages"))
  {
    var _ :- dispatched;
    Err(MissingAttribute("csc_failed_messages"))
  }

  /** The discrepancy: a request every target acknowledges should return
      normally, and as written it raises instead. */
  lemma AsWrittenRejectsCleanDispatch()
    ensures Verdict(Ok(Outcome(map[], {"Test:5"}))) == Ok(())
    ensures VerdictAsWritten(Ok(Outcome(map[], {"Test:5"}))).Err?
  {
  }

  /** `handle_authorize_request(data)` with the evident intent: dispatch to
      every target first, then raise iff some target failed. Reachable
      targets are changed even when the command fails, and a validation
      error contacts nobody. */
  method HandleAuthorizeRequest(d: AuthRequest, oracle: Command -> Reply)
    returns (r: Result<()>, sent: seq<Command>)
    ensures ValidateRequest(d).Err? ==> r == Err(ValidateRequest(d).error) && sent == []
    ensures ValidateRequest(d).Ok? ==>
      var o := Dispatch(ValidateRequest(d).value, d, oracle);
      && SentOnceEach(sent, ValidateRequest(d).value, d)
      && (r.Ok? <==> o.failedMessages == map[])
      && (r.Err? ==> r.error == PartialFailure(o.failedMessages, o.succeeded))
  {
    var dispatched;
    dispatched, sent := ProcessAuthorizeRequest(d, oracle);
    r := Verdict(dispatched);
  }

  /** Raised iff some target answered with an AckError. */
  lemma {:induction false} RaisesIffSomeTargetFailed(d: AuthRequest, oracle: Command -> Reply)
    requires ValidateRequest(d).Ok?
    ensures Verdict(Ok(Dispatch(ValidateRequest(d).value, d, oracle))).Err?
        <==> exists t :: t in ValidateRequest(d).value && oracle(CommandFor(t, d)).AckError?
  {
    var targets := ValidateRequest(d).value;
    var o := Dispatch(targets, d, oracle);
    if exists t :: t in targets && oracle(CommandFor(t, d)).AckError? {
      var t :| t in targets && oracle(CommandFor(t, d)).AckError?;
      assert t in o.failedMessages;
    }
  }

  /** The failure reports a partition of the targets. */
  lemma FailureReportsPartition(d: AuthRequest, oracle: Command -> Reply)
    requires ValidateRequest(d).Ok?
    ensures var r := Verdict(Ok(Dispatch(ValidateRequest(d).value, d, oracle)));
      r.Err? ==>
        && r.error.succeeded !! r.error.failedMessages.Keys
        && r.error.succeeded + r.error.failedMessages.Keys == ValidateRequest(d).value
  {
    DispatchPartitions(ValidateRequest(d).value, d, oracle);
  }
}
