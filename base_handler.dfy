/** base_authorize_handler.py: validation of a requestAuthorization command
    and the fan-out that sends setAuthList to every target CSC. */
module BaseHandler {
  import opened AuthTypes
  import opened Text
  import opened HandlerUtils

  // ---------------------------------------------------------------------
  // validate_request

  /** One leading '+' or '-' is dropped; nothing else is. */
  function StripSign(s: string): string
  {
    if |s| > 0 && (s[0] == '+' || s[0] == '-') then s[1..] else s
  }

  /** The entries of a comma-separated list: split on "," and each piece
      stripped. */
  function Entries(s: string): seq<string>
  {
    StripAll(Split(s))
  }

  /** Every trimmed piece of `s.split(",")` satisfies `valid`. */
  ghost predicate EveryPiece(s: string, valid: string -> bool)
  {
    var ps := Split(s);
    forall i :: 0 <= i < |ps| ==> valid(Strip(ps[i]))
  }

  /** cscsToChange: every trimmed piece is a CSC name[:index]. */
  ghost predicate TargetsValid(d: AuthRequest)
  {
    EveryPiece(d.cscsToChange, CscPattern)
  }

  /** authorizedUsers: empty, or, its sign dropped, only user@host pieces. */
  ghost predicate UsersValid(d: AuthRequest)
  {
    d.authorizedUsers != "" ==> EveryPiece(StripSign(d.authorizedUsers), UserHostPattern)
  }

  /** nonAuthorizedCscs: empty, or, its sign dropped, only CSC pieces. */
  ghost predicate NonAuthorizedValid(d: AuthRequest)
  {
    d.nonAuthorizedCscs != "" ==> EveryPiece(StripSign(d.nonAuthorizedCscs), CscPattern)
  }

  /** What a well-formed requestAuthorization command is. */
  ghost predicate WellFormed(d: AuthRequest)
  {
    TargetsValid(d) && UsersValid(d) && NonAuthorizedValid(d)
  }

  /** The error `validate_request` raises names an offending entry of the
      first list (targets, then users, then non-authorized CSCs) that has
      one. */
  ghost predicate NamesFirstBadEntry(d: AuthRequest, e: Error)
  {
    if !TargetsValid(d) then
      e.InvalidCsc? && e.csc in Entries(d.cscsToChange) && !CscPattern(e.csc)
    else if !UsersValid(d) then
      e.InvalidUserHost? && e.userHost in Entries(StripSign(d.authorizedUsers)) && !UserHostPattern(e.userHost)
    else
      e.InvalidCsc? && e.csc in Entries(StripSign(d.nonAuthorizedCscs)) && !CscPattern(e.csc)
  }

  /** Every piece is valid exactly when every entry is. */
  lemma PiecesAreEntries(s: string, valid: string -> bool)
    ensures EveryPiece(s, valid) <==> forall i :: 0 <= i < |Entries(s)| ==> valid(Entries(s)[i])
  {
    var ps := Split(s);
    assert forall i :: 0 <= i < |ps| ==> Entries(s)[i] == Strip(ps[i]);
  }

  lemma PiecesAndEntries(s: string, valid: string -> bool)
    ensures EveryPiece(s, valid) <==> forall x :: x in SetFromCommaSeparatedString(s) ==> valid(x)
  {
    var ps := Split(s);
    if EveryPiece(s, valid) {
      forall x | x in SetFromCommaSeparatedString(s) ensures valid(x) {
        var i :| 0 <= i < |ps| && StripAll(ps)[i] == x;
      }
    }
    if forall x :: x in SetFromCommaSeparatedString(s) ==> valid(x) {
      forall i | 0 <= i < |ps| ensures valid(Strip(ps[i])) {
        assert StripAll(ps)[i] in StripAll(ps);
      }
    }
  }

  function CheckTargets(d: AuthRequest): (r: Result<()>)
    ensures r.Ok? <==> TargetsValid(d)
    ensures r.Err? ==> r.error.InvalidCsc? && r.error.csc in Entries(d.cscsToChange) && !CscPattern(r.error.csc)
  {
    PiecesAndEntries(d.cscsToChange, CscPattern);
    CheckCscs(SetFromCommaSeparatedString(d.cscsToChange))
  }

  function CheckUsers(d: AuthRequest): (r: Result<()>)
    ensures r.Ok? <==> UsersValid(d)
    ensures r.Err? ==> r.error.InvalidUserHost? && r.error.userHost in Entries(StripSign(d.authorizedUsers))
                       && !UserHostPattern(r.error.userHost)
  {
    if d.authorizedUsers == "" then Ok(())
    else
      var s := StripSign(d.authorizedUsers);
      PiecesAndEntries(s, UserHostPattern);
      CheckUserHosts(SetFromCommaSeparatedString(s))
  }

  function CheckNonAuthorized(d: AuthRequest): (r: Result<()>)
    ensures r.Ok? <==> NonAuthorizedValid(d)
    ensures r.Err? ==> r.error.InvalidCsc? && r.error.csc in Entries(StripSign(d.nonAuthorizedCscs))
                       && !CscPattern(r.error.csc)
  {
    if d.nonAuthorizedCscs == "" then Ok(())
    else
      var s := StripSign(d.nonAuthorizedCscs);
      PiecesAndEntries(s, CscPattern);
      var r := CheckCscs(SetFromCommaSeparatedString(s));
      assert r.Err? ==> r.error.csc in SetFromCommaSeparatedString(s);
      r
  }

  /** `validate_request(data)`: the set of targets when the request is
      well formed, otherwise the error of the first failing check. The
      ExpectedError for an empty target set is kept, but cannot be raised:
      see NoCscsUnreachable. */
  function ValidateRequest(d: AuthRequest): (r: Result<set<string>>)
    ensures r.Ok? <==> WellFormed(d)
    ensures r.Ok? ==> r.value == SetFromCommaSeparatedString(d.cscsToChange)
    ensures r.Err? ==> NamesFirstBadEntry(d, r.error)
  {
    var cscs := SetFromCommaSeparatedString(d.cscsToChange);
    if cscs == {} then Err(NoCscs)
    else
      var _ :- CheckTargets(d);
      var _ :- CheckUsers(d);
      var _ :- CheckNonAuthorized(d);
      Ok(cscs)
  }

  /** A split always has at least one piece, so the target set is never
      empty and the "No CSCs specified" error is never raised. */
  lemma NoCscsUnreachable(d: AuthRequest)
    ensures ValidateRequest(d) != Err(NoCscs)
  {
  }

  /** An empty or blank cscsToChange is rejected as the invalid CSC "",
      whatever the other fields hold. */
  lemma {:induction false} BlankTargetsRejected(d: AuthRequest)
    requires AllSpace(d.cscsToChange) && ',' !in d.cscsToChange
    ensures ValidateRequest(d) == Err(InvalidCsc(""))
  {
    var blank := d.cscsToChange;
    SplitPrefix(blank, "");
    assert blank + "" == blank;
    StripPadded(blank, "");
    assert StripAll(Split(blank)) == [""];
    CscNotEmpty();
  }

  lemma CscNotEmpty()
    ensures !CscPattern("")
  {
    if CscPattern("") {
      CscStartsWithLetter("");
    }
  }

  /** Only the first character is dropped: in "++a@b" (or "+-a@b") the
      second sign stays on the first user, which is then rejected. */
  lemma {:induction false} SecondSignKept(d: AuthRequest, sign: char, rest: string)
    requires sign == '+' || sign == '-'
    requires d.authorizedUsers == [sign, sign] + rest
    ensures ValidateRequest(d).Err?
  {
    assert StripSign(d.authorizedUsers) == [sign] + rest;
    SplitPrefix([sign], rest);
    var first := Split([sign] + rest)[0];
    assert first in Split(StripSign(d.authorizedUsers));
    assert first[0] == sign;
    StripKeepsFirst(first);
    if UserHostPattern(Strip(first)) {
      UserHostOneAt(Strip(first));
    }
    assert !UsersValid(d);
  }

  // ---------------------------------------------------------------------
  // process_authorize_request

  /** The setAuthList command for one target: both strings forwarded
      verbatim, sign included. */
  function CommandFor(target: string, d: AuthRequest): Command
  {
    SetAuthList(target, d.authorizedUsers, d.nonAuthorizedCscs)
  }

  /** The outcome of sending the request to every target, given what each
      target answers: the rejecting targets with their messages, and the
      rest as succeeded. */
  function Dispatch(targets: set<string>, d: AuthRequest, oracle: Command -> Reply): (o: Outcome)
    ensures forall t :: t in o.failedMessages <==> t in targets && oracle(CommandFor(t, d)).AckError?
    ensures forall t :: t in o.failedMessages ==> o.failedMessages[t] == oracle(CommandFor(t, d)).message
    ensures forall t :: t in o.succeeded <==> t in targets && oracle(CommandFor(t, d)).Ack?
  {
    var failed := map t | t in targets && oracle(CommandFor(t, d)).AckError? :: oracle(CommandFor(t, d)).message;
    Outcome(failed, targets - failed.Keys)
  }

  /** The outcome partitions the targets: succeeded and failed are disjoint,
      together they are the targets, and their sizes add up. */
  lemma DispatchPartitions(targets: set<string>, d: AuthRequest, oracle: Command -> Reply)
    ensures var o := Dispatch(targets, d, oracle);
      && o.succeeded !! o.failedMessages.Keys
      && o.succeeded + o.failedMessages.Keys == targets
      && |o.succeeded| + |o.failedMessages| == |targets|
  {
    var o := Dispatch(targets, d, oracle);
    assert o.succeeded + o.failedMessages.Keys == targets;
    assert |o.failedMessages.Keys| == |o.failedMessages|;
  }

  /** Every target is sent exactly one command, the request's own. */
  ghost predicate SentOnceEach(sent: seq<Command>, targets: set<string>, d: AuthRequest)
  {
    && TargetsOf(sent) == targets
    && (forall i :: 0 <= i < |sent| ==> sent[i] == CommandFor(sent[i].target, d))
    && (forall i, j :: 0 <= i < j < |sent| ==> sent[i].target != sent[j].target)
  }

  /** Sending one more command, to a target not yet contacted, keeps every
      target contacted once. */
  lemma SendOneMore(sent: seq<Command>, done: set<string>, t: string, d: AuthRequest)
    requires SentOnceEach(sent, done, d) && t !in done
    ensures SentOnceEach(sent + [CommandFor(t, d)], done + {t}, d)
  {
    var sent' := sent + [CommandFor(t, d)];
    assert TargetsOf(sent') == done + {t} by {
      forall x | x in done + {t} ensures x in TargetsOf(sent') {
        if x != t {
          var i :| 0 <= i < |sent| && sent[i].target == x;
          assert sent'[i].target == x;
        } else {
          assert sent'[|sent|].target == x;
        }
      }
    }
    forall i, j | 0 <= i < j < |sent'| ensures sent'[i].target != sent'[j].target {
      if j == |sent| {
        assert sent[i].target in TargetsOf(sent);
      }
    }
  }

  /** The failures recorded for the targets contacted so far. */
  ghost predicate FailuresSoFar(failed: map<string, string>, done: set<string>, d: AuthRequest, oracle: Command -> Reply)
  {
    && (forall t :: t in failed <==> t in done && oracle(CommandFor(t, d)).AckError?)
    && (forall t :: t in failed ==> failed[t] == oracle(CommandFor(t, d)).message)
  }

  /** Recording the reply of one more target keeps the failures exact. */
  lemma RecordOneMore(failed: map<string, string>, done: set<string>, t: string, d: AuthRequest,
                      oracle: Command -> Reply)
    requires FailuresSoFar(failed, done, d, oracle) && t !in done
    ensures var reply := oracle(CommandFor(t, d));
      FailuresSoFar(if reply.AckError? then failed[t := reply.message] else failed, done + {t}, d, oracle)
  {
  }

  /** Once every target is contacted, the failures are those of Dispatch. */
  lemma AllRecorded(failed: map<string, string>, targets: set<string>, d: AuthRequest, oracle: Command -> Reply)
    requires FailuresSoFar(failed, targets, d, oracle)
    ensures Outcome(failed, targets - failed.Keys) == Dispatch(targets, d, oracle)
  {
    assert failed == Dispatch(targets, d, oracle).failedMessages;
  }

  /** The loop of `process_authorize_request`: send setAuthList to every
      target in whatever order the set yields, record each AckError with its
      message and go on. The outcome is the same for every visiting order. */
  method SendToAll(targets: set<string>, d: AuthRequest, oracle: Command -> Reply)
    returns (o: Outcome, sent: seq<Command>)
    ensures o == Dispatch(targets, d, oracle)
    ensures SentOnceEach(sent, targets, d)
  {
    var failed: map<string, string> := map[];
    var done: set<string> := {};
    sent := [];
    while done != targets
      invariant done <= targets
      invariant SentOnceEach(sent, done, d)
      invariant FailuresSoFar(failed, done, d, oracle)
      decreases |targets - done|
    {
      var t :| t in targets - done;
      var reply := oracle(CommandFor(t, d));
      SendOneMore(sent, done, t, d);
      RecordOneMore(failed, done, t, d, oracle);
      sent := sent + [CommandFor(t, d)];
      if reply.AckError? {
        failed := failed[t := reply.message];
      }
      assert targets - (done + {t}) < targets - done;
      done := done + {t};
    }
    AllRecorded(failed, targets, d, oracle);
    o := Outcome(failed, targets - failed.Keys);
  }

  /** `process_authorize_request(data)`: validate; on an invalid request,
      raise before contacting any target; otherwise contact every target
      once and return (failed, targets - failed). */
  method ProcessAuthorizeRequest(d: AuthRequest, oracle: Command -> Reply)
    returns (r: Result<Outcome>, sent: seq<Command>)
    ensures ValidateRequest(d).Err? ==> r == Err(ValidateRequest(d).error) && sent == []
    ensures ValidateRequest(d).Ok? ==>
      && r == Ok(Dispatch(ValidateRequest(d).value, d, oracle))
      && SentOnceEach(sent, ValidateRequest(d).value, d)
  {
    var v := ValidateRequest(d);
    if v.Err? {
      return Err(v.error), [];
    }
    var o;
    o, sent := SendToAll(v.value, d, oracle);
    r := Ok(o);
  }
}
