/** authorize.py: the older Authorize CSC, which validates a
    requestAuthorization command itself and fans it out at once. */
module AuthorizeCsc {
  import opened AuthTypes
  import opened Text
  import opened HandlerUtils
  import Utils
  import opened BaseHandler

  /** The configuration fields the CSC reads. */
  datatype Config = Config(autoAuthorization: bool, timeoutRequestAuthorization: real)

  /** `validate_request(data)` of the CSC: the target set is built and
      checked as in the handlers; the user and non-authorized lists are
      checked piece by piece in list order with the checks of utils.py. */
  function LegacyValidateRequest(d: AuthRequest): (r: Result<set<string>>)
    ensures r.Ok? <==> WellFormed(d)
    ensures r.Ok? ==> r.value == SetFromCommaSeparatedString(d.cscsToChange)
    ensures r.Err? ==> NamesFirstBadEntry(d, r.error)
  {
    var cscs := SetFromCommaSeparatedString(d.cscsToChange);
    if cscs == {} then Err(NoCscs)
    else
      var _ :- CheckTargets(d);
      var _ :- CheckListedUsers(d);
      var _ :- CheckListedNonAuthorized(d);
      Ok(cscs)
  }

  /** `for x in xs: check_user_host(x)` with the check of utils.py: the
      ValueError of the first invalid entry in list order, if any. */
  function FirstBadUserHost(xs: seq<string>): (r: Result<()>)
    ensures r.Ok? <==> forall i :: 0 <= i < |xs| ==> UserHostPattern(xs[i])
    ensures r.Err? ==> exists i :: 0 <= i < |xs| && r.error == InvalidUserHost(xs[i]) && !UserHostPattern(xs[i])
                                 && forall j :: 0 <= j < i ==> UserHostPattern(xs[j])
  {
    var r := FirstError(xs, Utils.CheckUserHost);
    if r.Ok? then
      assert forall i :: 0 <= i < |xs| ==> UserHostPattern(xs[i]) by {
        forall i | 0 <= i < |xs| ensures UserHostPattern(xs[i]) {
          assert Utils.CheckUserHost(xs[i]).Ok?;
        }
      }
      r
    else
      var i :| 0 <= i < |xs| && Utils.CheckUserHost(xs[i]) == Err(r.error)
               && forall j :: 0 <= j < i ==> Utils.CheckUserHost(xs[j]).Ok?;
      assert r.error == InvalidUserHost(xs[i]);
      r
  }

  /** `for x in xs: check_csc(x)` with the check of utils.py. */
  function FirstBadCsc(xs: seq<string>): (r: Result<()>)
    ensures r.Ok? <==> forall i :: 0 <= i < |xs| ==> CscPattern(xs[i])
    ensures r.Err? ==> exists i :: 0 <= i < |xs| && r.error == InvalidCsc(xs[i]) && !CscPattern(xs[i])
                                 && forall j :: 0 <= j < i ==> CscPattern(xs[j])
  {
    var r := FirstError(xs, Utils.CheckCsc);
    if r.Ok? then
      assert forall i :: 0 <= i < |xs| ==> CscPattern(xs[i]) by {
        forall i | 0 <= i < |xs| ensures CscPattern(xs[i]) {
          assert Utils.CheckCsc(xs[i]).Ok?;
        }
      }
      r
    else
      var i :| 0 <= i < |xs| && Utils.CheckCsc(xs[i]) == Err(r.error)
               && forall j :: 0 <= j < i ==> Utils.CheckCsc(xs[j]).Ok?;
      assert r.error == InvalidCsc(xs[i]);
      r
  }

  /** `for user in auth_users.split(","): check_user_host(user.strip())`,
      after dropping one leading sign; skipped for an empty string. */
  function CheckListedUsers(d: AuthRequest): (r: Result<()>)
    ensures r.Ok? <==> UsersValid(d)
    ensures r.Err? ==> r.error.InvalidUserHost? && r.error.userHost in Entries(StripSign(d.authorizedUsers))
                       && !UserHostPattern(r.error.userHost)
    ensures r.Err? ==>
      exists i :: 0 <= i < |Entries(StripSign(d.authorizedUsers))|
        && r.error == InvalidUserHost(Entries(StripSign(d.authorizedUsers))[i])
        && !UserHostPattern(Entries(StripSign(d.authorizedUsers))[i])
        && forall j :: 0 <= j < i ==> UserHostPattern(Entries(StripSign(d.authorizedUsers))[j])
  {
    if d.authorizedUsers == "" then Ok(())
    else
      var s := StripSign(d.authorizedUsers);
      PiecesAreEntries(s, UserHostPattern);
      var r := FirstBadUserHost(Entries(s));
      assert r.Err? ==> r.error.userHost in Entries(s) by {
        if r.Err? {
          var i :| 0 <= i < |Entries(s)| && r.error == InvalidUserHost(Entries(s)[i]);
        }
      }
      r
  }

  /** The same for the non-authorized CSC list, with `check_csc`. */
  function CheckListedNonAuthorized(d: AuthRequest): (r: Result<()>)
    ensures r.Ok? <==> NonAuthorizedValid(d)
    ensures r.Err? ==> r.error.InvalidCsc? && r.error.csc in Entries(StripSign(d.nonAuthorizedCscs))
                       && !CscPattern(r.error.csc)
    ensures r.Err? ==>
      exists i :: 0 <= i < |Entries(StripSign(d.nonAuthorizedCscs))|
        && r.error == InvalidCsc(Entries(StripSign(d.nonAuthorizedCscs))[i])
        && !CscPattern(Entries(StripSign(d.nonAuthorizedCscs))[i])
        && forall j :: 0 <= j < i ==> CscPattern(Entries(StripSign(d.nonAuthorizedCscs))[j])
  {
    if d.nonAuthorizedCscs == "" then Ok(())
    else
      var s := StripSign(d.nonAuthorizedCscs);
      PiecesAreEntries(s, CscPattern);
      var r := FirstBadCsc(Entries(s));
      assert r.Err? ==> r.error.csc in Entries(s) by {
        if r.Err? {
          var i :| 0 <= i < |Entries(s)| && r.error == InvalidCsc(Entries(s)[i]);
        }
      }
      r
  }

  /** The CSC and the handlers accept the same requests with the same
      targets, and both reject a bad target list with the same error. */
  lemma LegacyAgreesWithHandlers(d: AuthRequest)
    ensures LegacyValidateRequest(d).Ok? <==> ValidateRequest(d).Ok?
    ensures LegacyValidateRequest(d).Ok? ==> LegacyValidateRequest(d) == ValidateRequest(d)
    ensures !TargetsValid(d) ==> LegacyValidateRequest(d) == ValidateRequest(d)
  {
  }

  /** The targets the CSC's fan-out reports as failed. */
  function FailedTargets(targets: set<string>, d: AuthRequest, oracle: Command -> Reply): set<string>
  {
    set t | t in targets && oracle(CommandFor(t, d)).AckError?
  }

  /** Both fan-outs fail on the same targets: the CSC's failed set is the key
      set of the handlers' failed map, and the rest succeeded in both. */
  lemma FailedTargetsMatchDispatch(targets: set<string>, d: AuthRequest, oracle: Command -> Reply)
    ensures FailedTargets(targets, d, oracle) == Dispatch(targets, d, oracle).failedMessages.Keys
    ensures targets - FailedTargets(targets, d, oracle) == Dispatch(targets, d, oracle).succeeded
  {
    var failed := FailedTargets(targets, d, oracle);
    var o := Dispatch(targets, d, oracle);
    assert forall t :: t in failed <==> t in o.failedMessages;
  }

  /** The targets contacted so far that answered with an AckError. */
  ghost predicate FailedSoFar(failed: set<string>, done: set<string>, d: AuthRequest, oracle: Command -> Reply)
  {
    forall t :: t in failed <==> t in done && oracle(CommandFor(t, d)).AckError?
  }

  /** The loop of `do_requestAuthorization`: send setAuthList to every
      target in whatever order the set yields, adding each target that
      answers with an AckError to the failed set, and go on. */
  method SendCollectingFailures(targets: set<string>, d: AuthRequest, oracle: Command -> Reply)
    returns (failed: set<string>, sent: seq<Command>)
    ensures failed == FailedTargets(targets, d, oracle)
    ensures SentOnceEach(sent, targets, d)
  {
    failed := {};
    var done: set<string> := {};
    sent := [];
    while done != targets
      invariant done <= targets
      invariant SentOnceEach(sent, done, d)
      invariant FailedSoFar(failed, done, d, oracle)
      decreases |targets - done|
    {
      var t :| t in targets - done;
      var reply := oracle(CommandFor(t, d));
      SendOneMore(sent, done, t, d);
      sent := sent + [CommandFor(t, d)];
      if reply.AckError? {
        failed := failed + {t};
      }
      assert targets - (done + {t}) < targets - done;
      done := done + {t};
    }
    assert failed == FailedTargets(targets, d, oracle);
  }

  /** The state of the CSC the command reads: whether it is enabled, and
      the configuration `configure` stored. */
  class Authorize {
    var enabled: bool
    var config: Option<Config>

    /** `__init__`: no configuration yet. */
    constructor (enabled: bool)
      ensures this.enabled == enabled && config == None
    {
      this.enabled := enabled;
      config := None;
    }

    /** `configure(config)`: only automatic authorization is implemented;
      any other configuration is refused and not stored. */
    method Configure(c: Config) returns (r: Result<()>)
      modifies this`config
      ensures c.autoAuthorization <==> r.Ok?
      ensures !c.autoAuthorization ==> r == Err(NotImplemented) && config == old(config)
      ensures c.autoAuthorization ==> config == Some(c)
    {
      if !c.autoAuthorization {
        return Err(NotImplemented);
      }
      config := Some(c);
      r := Ok(());
    }

    /** `do_requestAuthorization(data)`: refused unless enabled; reads the
      configured timeout (an AttributeError while no configuration is
      stored); validates, then contacts every target once, collects the
      targets that answered with an AckError and raises RuntimeError naming
      them and the others iff there is one. */
    method DoRequestAuthorization(d: AuthRequest, oracle: Command -> Reply)
      returns (r: Result<()>, sent: seq<Command>)
      ensures !enabled ==> r == Err(NotEnabled) && sent == []
      ensures enabled && config.None? ==> r == Err(MissingAttribute("timeout_request_authorization")) && sent == []
      ensures enabled && config.Some? && LegacyValidateRequest(d).Err? ==>
        r == Err(LegacyValidateRequest(d).error) && sent == []
      ensures enabled && config.Some? && LegacyValidateRequest(d).Ok? ==>
        var targets := LegacyValidateRequest(d).value;
        var failed := FailedTargets(targets, d, oracle);
        && SentOnceEach(sent, targets, d)
        && r == (if failed == {} then Ok(()) else Err(LegacyPartialFailure(failed, targets - failed)))
    {
      if !enabled {
        return Err(NotEnabled), [];
      }
      if config.None? {
        return Err(MissingAttribute("timeout_request_authorization")), [];
      }
      var v := LegacyValidateRequest(d);
      if v.Err? {
        return Err(v.error), [];
      }
      var targets := v.value;
      var failed;
      failed, sent := SendCollectingFailures(targets, d, oracle);
      if failed != {} {
        return Err(LegacyPartialFailure(failed, targets - failed)), sent;
      }
      r := Ok(());
    }
  }
}
