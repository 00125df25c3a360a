/** utils.py: the older copy of the two identifier checks. Its two patterns
    are character for character those of handler_utils.py, so both checks
    are stated against the same pattern meanings. */
module Utils {
  import opened AuthTypes
  import HandlerUtils

  /** `utils.check_csc(csc)`: the argument when it matches
      `^[a-zA-Z][_A-Za-z0-9]*(:\d+)?$`, ValueError otherwise. */
  function CheckCsc(csc: string): (r: Result<string>)
    ensures r == if HandlerUtils.CscPattern(csc) then Ok(csc) else Err(InvalidCsc(csc))
  {
    HandlerUtils.MatchCscCorrect(csc);
    if HandlerUtils.MatchCsc(csc) then Ok(csc) else Err(InvalidCsc(csc))
  }

  /** `utils.check_user_host(user_host)`: the argument when it matches the
      user@host pattern, ValueError otherwise. Whatever its docstring says,
      it substitutes nothing for "me". */
  function CheckUserHost(userHost: string): (r: Result<string>)
    ensures r == if HandlerUtils.UserHostPattern(userHost) then Ok(userHost) else Err(InvalidUserHost(userHost))
  {
    HandlerUtils.MatchUserHostCorrect(userHost);
    if HandlerUtils.MatchUserHost(userHost) then Ok(userHost) else Err(InvalidUserHost(userHost))
  }

  /** The two copies accept and reject exactly the same strings. */
  lemma SameAsHandlerUtils(s: string)
    ensures CheckCsc(s) == HandlerUtils.CheckCsc(s)
    ensures CheckUserHost(s) == HandlerUtils.CheckUserHost(s)
  {
  }

  /** "me" is not replaced: it has no '@' and is rejected. */
  lemma MeIsRejected()
    ensures CheckUserHost("me") == Err(InvalidUserHost("me"))
  {
    assert !HandlerUtils.MatchUserHost("me");
  }
}
