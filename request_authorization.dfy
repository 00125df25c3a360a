/** request_authorization.py: the command-line tool that builds the three
    strings of a requestAuthorization command from its arguments. The
    parsed flags and the caller's user@host come in as parameters. */
module RequestAuthorization {
  import opened AuthTypes
  import opened Text
  import opened HandlerUtils
  import opened BaseHandler
  import AuthorizeCsc

  /** The mutually exclusive `-a/--add` and `-r/--remove` flags: neither,
      one or the other. */
  datatype Mode = Replace | Add | Remove

  /** The prefix of both lists: none when replacing, otherwise a sign
      (`+` to add, `-` to remove) followed by one space, which is all the
      validators drop before splitting. */
  function Prefix(m: Mode): (p: string)
    ensures m == Replace <==> p == ""
    ensures m != Replace ==> |p| == 2 && p[0] == (if m == Add then '+' else '-') && StripSign(p) == " "
  {
    match m
    case Replace => ""
    case Add => "+ "
    case Remove => "- "
  }

  /** `replace_me(user_host)`: exactly "me" becomes the caller's user@host;
      every other string is left alone. */
  function ReplaceMe(me: string, userHost: string): (r: string)
    ensures userHost == "me" ==> r == me
    ensures userHost != "me" ==> r == userHost
  {
    if userHost == "me" then me else userHost
  }

  /** With a valid caller identity, a replaced user is valid exactly when
      it was "me" or already valid: the substitution neither rescues a bad
      entry nor spoils a good one. */
  lemma ReplaceMeValid(me: string, userHost: string)
    requires UserHostPattern(me)
    ensures UserHostPattern(ReplaceMe(me, userHost)) <==> (userHost == "me" || UserHostPattern(userHost))
  {
  }

  /** `[replace_me(u) for u in users]`. */
  function Replaced(me: string, users: seq<string>): (r: seq<string>)
    ensures |r| == |users|
    ensures forall i :: 0 <= i < |users| ==> r[i] == ReplaceMe(me, users[i])
  {
    seq(|users|, i requires 0 <= i < |users| => ReplaceMe(me, users[i]))
  }

  /** `[check(x) for x in xs]`: the checked values in order, or the error
      of the first entry that fails, which aborts the comprehension. */
  function CheckEach(xs: seq<string>, check: string -> Result<string>): (r: Result<seq<string>>)
    ensures r.Ok? <==> forall i :: 0 <= i < |xs| ==> check(xs[i]).Ok?
    ensures r.Ok? ==> |r.value| == |xs| && forall i :: 0 <= i < |xs| ==> r.value[i] == check(xs[i]).value
    ensures r.Err? ==> exists i :: 0 <= i < |xs| && check(xs[i]) == Err(r.error)
                        && forall j :: 0 <= j < i ==> check(xs[j]).Ok?
  {
    if xs == [] then Ok([])
    else if check(xs[0]).Err? then Err(check(xs[0]).error)
    else
      var rest := CheckEach(xs[1..], check);
      if rest.Err? then
        var i :| 0 <= i < |xs[1..]| && check(xs[1..][i]) == Err(rest.error)
                 && forall j :: 0 <= j < i ==> check(xs[1..][j]).Ok?;
        assert check(xs[i + 1]) == Err(rest.error);
        Err(rest.error)
      else
        Ok([check(xs[0]).value] + rest.value)
  }

  /** Every entry of `xs` satisfies `valid`. */
  ghost predicate AllSatisfy(xs: seq<string>, valid: string -> bool)
  {
    forall i :: 0 <= i < |xs| ==> valid(xs[i])
  }

  /** `xs[i]` is the first entry of `xs` that fails `valid`. */
  ghost predicate FirstFailure(xs: seq<string>, i: int, valid: string -> bool)
  {
    0 <= i < |xs| && !valid(xs[i]) && forall j :: 0 <= j < i ==> valid(xs[j])
  }

  /** `[check_csc(csc) for csc in xs]`: the list itself when every entry is
      a CSC name[:index], else the ValueError of the first that is not. */
  function CheckCscList(xs: seq<string>): (r: Result<seq<string>>)
    ensures r.Ok? <==> AllSatisfy(xs, CscPattern)
    ensures r.Ok? ==> r.value == xs
    ensures r.Err? ==> exists i :: FirstFailure(xs, i, CscPattern) && r.error == InvalidCsc(xs[i])
  {
    var r := CheckEach(xs, CheckCsc);
    if r.Err? then
      var i :| 0 <= i < |xs| && CheckCsc(xs[i]) == Err(r.error)
               && forall j :: 0 <= j < i ==> CheckCsc(xs[j]).Ok?;
      assert FirstFailure(xs, i, CscPattern);
      r
    else
      assert r.value == xs;
      r
  }

  /** `[check_user_host(u) for u in xs]`, the same for user@host entries. */
  function CheckUserHostList(xs: seq<string>): (r: Result<seq<string>>)
    ensures r.Ok? <==> AllSatisfy(xs, UserHostPattern)
    ensures r.Ok? ==> r.value == xs
    ensures r.Err? ==> exists i :: FirstFailure(xs, i, UserHostPattern) && r.error == InvalidUserHost(xs[i])
  {
    var r := CheckEach(xs, CheckUserHost);
    if r.Err? then
      var i :| 0 <= i < |xs| && CheckUserHost(xs[i]) == Err(r.error)
               && forall j :: 0 <= j < i ==> CheckUserHost(xs[j]).Ok?;
      assert FirstFailure(xs, i, UserHostPattern);
      r
    else
      assert r.value == xs;
      r
  }

  /** The `-u` argument: absent gives "", present gives the prefix
      followed by the checked users, "me" replaced, joined with ", ". */
  function UsersArgument(prefix: string, me: string, users: Option<seq<string>>): (r: Result<string>)
    ensures r.Ok? <==> (users.Some? ==> AllSatisfy(Replaced(me, users.value), UserHostPattern))
    ensures r.Ok? ==> r.value == if users.None? then "" else prefix + Join(", ", Replaced(me, users.value))
    ensures r.Err? ==> users.Some? && exists i :: FirstFailure(Replaced(me, users.value), i, UserHostPattern)
                                         && r.error == InvalidUserHost(Replaced(me, users.value)[i])
  {
    match users
    case None => Ok("")
    case Some(xs) =>
      var checked :- CheckUserHostList(Replaced(me, xs));
      Ok(prefix + Join(", ", checked))
  }

  /** The `-c` argument: absent gives "", present gives the prefix
      followed by the checked CSCs joined with ", ". */
  function NonAuthorizedArgument(prefix: string, cscs: Option<seq<string>>): (r: Result<string>)
    ensures r.Ok? <==> (cscs.Some? ==> AllSatisfy(cscs.value, CscPattern))
    ensures r.Ok? ==> r.value == if cscs.None? then "" else prefix + Join(", ", cscs.value)
    ensures r.Err? ==> cscs.Some? && exists i :: FirstFailure(cscs.value, i, CscPattern)
                                        && r.error == InvalidCsc(cscs.value[i])
  {
    match cscs
    case None => Ok("")
    case Some(xs) =>
      var checked :- CheckCscList(xs);
      Ok(prefix + Join(", ", checked))
  }

  /** The three strings of the command. The CSCs to change are checked
      first, then the users (after "me" is replaced), then the CSCs to
      block; the first invalid entry aborts with its ValueError and no
      command is built. `identity` is the private identity the command is
      sent under. */
  function BuildRequest(cscs: seq<string>, authUsers: Option<seq<string>>, nonauthCscs: Option<seq<string>>,
                        m: Mode, me: string, identity: string): (r: Result<AuthRequest>)
    ensures r.Ok? <==>
      && AllSatisfy(cscs, CscPattern)
      && (authUsers.Some? ==> AllSatisfy(Replaced(me, authUsers.value), UserHostPattern))
      && (nonauthCscs.Some? ==> AllSatisfy(nonauthCscs.value, CscPattern))
    ensures r.Ok? ==>
      && r.value.cscsToChange == Join(", ", cscs)
      && r.value.authorizedUsers
         == (if authUsers.None? then "" else Prefix(m) + Join(", ", Replaced(me, authUsers.value)))
      && r.value.nonAuthorizedCscs
         == (if nonauthCscs.None? then "" else Prefix(m) + Join(", ", nonauthCscs.value))
      && r.value.privateIdentity == identity
    ensures r.Err? ==>
      if !AllSatisfy(cscs, CscPattern) then
        exists i :: FirstFailure(cscs, i, CscPattern) && r.error == InvalidCsc(cscs[i])
      else if authUsers.Some? && !AllSatisfy(Replaced(me, authUsers.value), UserHostPattern) then
        exists i :: FirstFailure(Replaced(me, authUsers.value), i, UserHostPattern)
                    && r.error == InvalidUserHost(Replaced(me, authUsers.value)[i])
      else
        exists i :: nonauthCscs.Some? && FirstFailure(nonauthCscs.value, i, CscPattern)
                    && r.error == InvalidCsc(nonauthCscs.value[i])
  {
    var prefix := Prefix(m);
    var checkedCscs :- CheckCscList(cscs);
    var usersStr :- UsersArgument(prefix, me, authUsers);
    var nonauthStr :- NonAuthorizedArgument(prefix, nonauthCscs);
    Ok(AuthRequest(Join(", ", checkedCscs), usersStr, nonauthStr, identity))
  }

  // ---------------------------------------------------------------------
  // What the validators make of a built command

  /** Entries fit to be joined into a list: no comma, no surrounding white
      space, and a letter first. Valid CSCs and user@host values are. */
  ghost predicate Joinable(xs: seq<string>)
  {
    forall i :: 0 <= i < |xs| ==> ',' !in xs[i] && Trimmed(xs[i]) && |xs[i]| > 0 && IsLetter(xs[i][0])
  }

  lemma CscsJoinable(xs: seq<string>)
    requires AllSatisfy(xs, CscPattern)
    ensures Joinable(xs)
  {
    forall i | 0 <= i < |xs| ensures ',' !in xs[i] && Trimmed(xs[i]) && |xs[i]| > 0 && IsLetter(xs[i][0]) {
      CscIsListSafe(xs[i]);
      CscStartsWithLetter(xs[i]);
    }
  }

  lemma UserHostsJoinable(xs: seq<string>)
    requires AllSatisfy(xs, UserHostPattern)
    ensures Joinable(xs)
  {
    forall i | 0 <= i < |xs| ensures ',' !in xs[i] && Trimmed(xs[i]) && |xs[i]| > 0 && IsLetter(xs[i][0]) {
      UserHostIsListSafe(xs[i]);
      UserHostOneAt(xs[i]);
    }
  }

  /** The joined list starts with the first entry. */
  lemma {:induction false} JoinStartsWithFirst(xs: seq<string>)
    requires |xs| >= 1 && |xs[0]| > 0
    ensures |Join(", ", xs)| > 0 && Join(", ", xs)[0] == xs[0][0]
  {
  }

  /** cscsToChange carries no prefix, and the validators read back exactly
      the entries that were joined. */
  lemma TargetsReadBack(xs: seq<string>)
    requires |xs| >= 1 && Joinable(xs)
    ensures Entries(Join(", ", xs)) == xs
  {
    SplitStripJoin("", xs);
    assert "" + Join(", ", xs) == Join(", ", xs);
  }

  /** StripSign takes the sign off a prefixed list that starts with a
      letter, leaving a space, and leaves an unprefixed one alone. */
  lemma SignDropped(m: Mode, j: string)
    requires |j| > 0 && IsLetter(j[0])
    ensures StripSign(Prefix(m) + j) == (if m == Replace then j else " " + j)
  {
    var p := Prefix(m);
    if m == Replace {
      assert p + j == j;
    } else {
      assert (p + j)[0] == p[0];
      assert (p + j)[1..] == " " + j;
    }
  }

  /** Behind either prefix, a joined list loses its sign to StripSign and
      reads back as exactly the entries that were joined. */
  lemma ListReadsBack(m: Mode, xs: seq<string>)
    requires |xs| >= 1 && Joinable(xs)
    ensures Entries(StripSign(Prefix(m) + Join(", ", xs))) == xs
  {
    JoinStartsWithFirst(xs);
    SignDropped(m, Join(", ", xs));
    if m == Replace {
      TargetsReadBack(xs);
    } else {
      SplitStripJoin(" ", xs);
    }
  }

  /** Entries that all satisfy `valid` make every piece valid. */
  lemma EntriesMakeEveryPiece(s: string, valid: string -> bool)
    requires AllSatisfy(Entries(s), valid)
    ensures EveryPiece(s, valid)
  {
    var ps := Split(s);
    forall i | 0 <= i < |ps| ensures valid(Strip(ps[i])) {
      assert Entries(s)[i] == Strip(ps[i]);
    }
  }

  /** The built command is well formed whenever every list given is
      non-empty, and it names exactly the CSCs that were given; a user
      list, if given, reads back as the users with "me" replaced and a
      non-authorized list as the CSCs given. */
  lemma {:induction false} BuiltRequestIsWellFormed(cscs: seq<string>, authUsers: Option<seq<string>>,
                                                   nonauthCscs: Option<seq<string>>, m: Mode, me: string,
                                                   identity: string)
    requires |cscs| >= 1
    requires authUsers.Some? ==> |authUsers.value| >= 1
    requires nonauthCscs.Some? ==> |nonauthCscs.value| >= 1
    requires BuildRequest(cscs, authUsers, nonauthCscs, m, me, identity).Ok?
    ensures var d := BuildRequest(cscs, authUsers, nonauthCscs, m, me, identity).value;
      && WellFormed(d)
      && Entries(d.cscsToChange) == cscs
      && (authUsers.Some? ==> Entries(StripSign(d.authorizedUsers)) == Replaced(me, authUsers.value))
      && (nonauthCscs.Some? ==> Entries(StripSign(d.nonAuthorizedCscs)) == nonauthCscs.value)
  {
    var d := BuildRequest(cscs, authUsers, nonauthCscs, m, me, identity).value;
    CscsJoinable(cscs);
    TargetsReadBack(cscs);
    EntriesMakeEveryPiece(d.cscsToChange, CscPattern);
    if authUsers.Some? {
      var us := Replaced(me, authUsers.value);
      UserHostsJoinable(us);
      ListReadsBack(m, us);
      EntriesMakeEveryPiece(StripSign(d.authorizedUsers), UserHostPattern);
    }
    if nonauthCscs.Some? {
      CscsJoinable(nonauthCscs.value);
      ListReadsBack(m, nonauthCscs.value);
      EntriesMakeEveryPiece(StripSign(d.nonAuthorizedCscs), CscPattern);
    }
  }

  /** Both validators accept a command built from non-empty lists, and the
      targets they return are exactly the CSCs given on the command line. */
  lemma BuiltRequestIsAccepted(cscs: seq<string>, authUsers: Option<seq<string>>,
                               nonauthCscs: Option<seq<string>>, m: Mode, me: string, identity: string)
    requires |cscs| >= 1
    requires authUsers.Some? ==> |authUsers.value| >= 1
    requires nonauthCscs.Some? ==> |nonauthCscs.value| >= 1
    requires BuildRequest(cscs, authUsers, nonauthCscs, m, me, identity).Ok?
    ensures var d := BuildRequest(cscs, authUsers, nonauthCscs, m, me, identity).value;
      && ValidateRequest(d) == Ok(set x | x in cscs)
      && AuthorizeCsc.LegacyValidateRequest(d) == Ok(set x | x in cscs)
  {
    var d := BuildRequest(cscs, authUsers, nonauthCscs, m, me, identity).value;
    BuiltRequestIsWellFormed(cscs, authUsers, nonauthCscs, m, me, identity);
    assert SetFromCommaSeparatedString(d.cscsToChange) == set x | x in cscs;
    AuthorizeCsc.LegacyAgreesWithHandlers(d);
  }

  /** The bare prefix `-a` or `-r` leaves for an empty list reads as one
      empty entry. */
  lemma BarePrefixEntries(m: Mode)
    requires m != Replace
    ensures Entries(StripSign(Prefix(m))) == [""]
  {
    SplitStripOne(" ", "");
    assert " " + "" == " ";
  }

  /** An empty `-u` list: with no flag it gives "", which means no users;
      behind `-a` or `-r` it gives the bare prefix, which the validators
      read as one empty entry and reject. */
  lemma EmptyUserList(cscs: seq<string>, m: Mode, me: string, identity: string)
    requires |cscs| >= 1 && AllSatisfy(cscs, CscPattern)
    ensures BuildRequest(cscs, Some([]), None, m, me, identity)
         == Ok(AuthRequest(Join(", ", cscs), Prefix(m), "", identity))
    ensures ValidateRequest(AuthRequest(Join(", ", cscs), Prefix(m), "", identity))
         == (if m == Replace then Ok(set x | x in cscs) else Err(InvalidUserHost("")))
  {
    BuiltWithEmptyUsers(cscs, m, me, identity);
    BarePrefixValidation(cscs, m, identity);
  }

  lemma BuiltWithEmptyUsers(cscs: seq<string>, m: Mode, me: string, identity: string)
    requires AllSatisfy(cscs, CscPattern)
    ensures BuildRequest(cscs, Some([]), None, m, me, identity)
         == Ok(AuthRequest(Join(", ", cscs), Prefix(m), "", identity))
  {
    assert Replaced(me, []) == [];
    assert Prefix(m) + Join(", ", []) == Prefix(m);
  }

  /** A command with valid targets whose user list reads as one empty
      entry is rejected, naming the empty entry. */
  lemma EmptyEntryRejected(d: AuthRequest)
    requires TargetsValid(d)
    requires d.authorizedUsers != "" && Entries(StripSign(d.authorizedUsers)) == [""]
    ensures ValidateRequest(d) == Err(InvalidUserHost(""))
  {
    var users := StripSign(d.authorizedUsers);
    assert !UsersValid(d) by {
      assert Strip(Split(users)[0]) == "";
    }
    assert CheckUsers(d) == Err(InvalidUserHost("")) by {
      assert CheckUsers(d).error.userHost in Entries(users);
    }
    assert CheckTargets(d).Ok?;
  }

  lemma BarePrefixValidation(cscs: seq<string>, m: Mode, identity: string)
    requires |cscs| >= 1 && AllSatisfy(cscs, CscPattern)
    ensures ValidateRequest(AuthRequest(Join(", ", cscs), Prefix(m), "", identity))
         == (if m == Replace then Ok(set x | x in cscs) else Err(InvalidUserHost("")))
  {
    var d := AuthRequest(Join(", ", cscs), Prefix(m), "", identity);
    BuiltTargetsValid(cscs, d);
    if m == Replace {
      WellFormedAccepted(d);
    } else {
      BarePrefixEntries(m);
      EmptyEntryRejected(d);
    }
  }

  /** A well-formed command is accepted with its target set. */
  lemma WellFormedAccepted(d: AuthRequest)
    requires WellFormed(d)
    ensures ValidateRequest(d) == Ok(SetFromCommaSeparatedString(d.cscsToChange))
  {
  }

  /** A command whose target string is a joined list of valid CSCs has
      valid targets, and they are the CSCs joined. */
  lemma BuiltTargetsValid(cscs: seq<string>, d: AuthRequest)
    requires |cscs| >= 1 && AllSatisfy(cscs, CscPattern)
    requires d.cscsToChange == Join(", ", cscs)
    ensures TargetsValid(d)
    ensures SetFromCommaSeparatedString(d.cscsToChange) == set x | x in cscs
  {
    CscsJoinable(cscs);
    TargetsReadBack(cscs);
    EntriesMakeEveryPiece(d.cscsToChange, CscPattern);
  }
}
