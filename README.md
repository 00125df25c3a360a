# ts_authorize: the authorization-request engine in Dafny

ts_authorize changes the authorization lists of Rubin Observatory control
components (CSCs). A `requestAuthorization` command carries four strings:

- the CSCs to change (`name[:index]`, comma separated);
- the authorized users (`user@host`, comma separated, optionally signed
  `+`/`-`);
- the non-authorized CSCs (the same list form);
- the private identity of the requester.

This project models the engine that decides what happens to such a command,
and proves what it promises:

- **Identifier grammar** (`HandlerUtils`, `Utils`). The two regular
  expressions are given twice. `CscPattern`/`UserHostPattern` state what a
  match means. `MatchCsc`/`MatchUserHost` are left-to-right recognisers, and
  the checks run them. Lemmas prove the two agree, and prove which characters
  may appear where.
- **Request validation** (`BaseHandler.ValidateRequest`,
  `AuthorizeCsc.LegacyValidateRequest`). Each returns the target set exactly
  when the command is well formed. Otherwise it returns the error naming an
  invalid entry of the first bad list.
- **Fan-out** (`BaseHandler.SendToAll`,
  `AuthorizeCsc.SendCollectingFailures`). Each is a loop over the target set
  in arbitrary order. It is proved equal to a function of the set, so the
  outcome does not depend on the visiting order. Every target receives
  exactly one command, the failed map and the succeeded set partition the
  targets, and both lists are forwarded verbatim. What each target answers
  is an oracle `Command -> Reply`.
- **Approval strategies.**
  - The auto handler raises iff some target failed (`AutoHandler`).
  - The REST handler is the class `RestHandler.RestAuthorizeHandler`. It
    covers token extraction, submission with the field renaming, the
    record-to-request read-back, the execution status and message, the
    record loop of one polling cycle with its echo check, and the start/stop
    bookkeeping of the polling task.
- **The older CSC** (`AuthorizeCsc.Authorize`): `configure` and
  `do_requestAuthorization`.
- **The command-line tool** (`RequestAuthorization`). It chooses the prefix,
  replaces `me`, checks and joins the arguments, and builds the three
  strings. Both validators are proved to accept what it builds and to read
  back exactly the entries given.

`Text` models the Python string built-ins the engine relies on:
`split(",")`, `strip()`, `", ".join`, string order and `sorted` of a set.
`AuthTypes` holds the shared values: errors (one constructor per raise
site), the request, the command and reply, and the outcome.

## Model

All source paths are under `python/lsst/ts/authorize/`, written out in full.

| member | source | states |
|---|---|---|
| HandlerUtils.MatchCscCorrect | python/lsst/ts/authorize/handler_utils.py:26 | the left-to-right recogniser accepts a string iff it is a letter, then name characters, then optionally `:` and one or more digits |
| HandlerUtils.ScanNameCorrect | python/lsst/ts/authorize/handler_utils.py:26 | after a valid name prefix, the scanner's verdict is exactly the pattern's meaning for the whole string |
| HandlerUtils.ScanDigitsCorrect | python/lsst/ts/authorize/handler_utils.py:26 | the index scanner accepts exactly a `:` followed by one or more ASCII digits up to the end |
| HandlerUtils.MatchUserHostCorrect | python/lsst/ts/authorize/handler_utils.py:27 | the recogniser accepts iff the string splits at an `@` into a user (letter first) and a host (letter or digit first), all other characters in `[-._A-Za-z0-9]` |
| HandlerUtils.ScanUserCorrect | python/lsst/ts/authorize/handler_utils.py:27 | after a valid user prefix, the scanner's verdict is the pattern's meaning for the whole string |
| HandlerUtils.ScanHostCorrect | python/lsst/ts/authorize/handler_utils.py:27 | the host scanner accepts iff every remaining character is a host character |
| HandlerUtils.CheckCsc | python/lsst/ts/authorize/handler_utils.py:32-47 | returns the argument unchanged iff it matches the CSC pattern, otherwise ValueError carrying that argument (the empty string included) |
| HandlerUtils.CheckUserHost | python/lsst/ts/authorize/handler_utils.py:52-67 | returns the argument unchanged iff it matches the user@host pattern, otherwise ValueError carrying it |
| HandlerUtils.CscChars | python/lsst/ts/authorize/handler_utils.py:26 | a valid CSC contains only name characters and `:` |
| HandlerUtils.CscStartsWithLetter | python/lsst/ts/authorize/handler_utils.py:26 | a valid CSC is non-empty and starts with a letter, so `_abc`, `.abc`, `-abc:1` are rejected |
| HandlerUtils.CscIndexIsDigits | python/lsst/ts/authorize/handler_utils.py:26 | a `:` in a valid CSC is followed by at least one character, and only digits; everything before it is a name character (so at most one `:`, and `abc:a`, `abc:1a` are rejected) |
| HandlerUtils.UserHostChars | python/lsst/ts/authorize/handler_utils.py:27 | apart from the `@`, every character of a user@host is in `[-._A-Za-z0-9]` |
| HandlerUtils.UserHostOneAt | python/lsst/ts/authorize/handler_utils.py:27 | a valid user@host has exactly one `@` and starts with a letter |
| HandlerUtils.GrammarsDisjoint | python/lsst/ts/authorize/handler_utils.py:26-27 | a valid CSC contains no `@` and is never a valid user@host |
| HandlerUtils.CscIsListSafe | python/lsst/ts/authorize/handler_utils.py:26 | a valid CSC is non-empty, has no comma and no surrounding white space |
| HandlerUtils.UserHostIsListSafe | python/lsst/ts/authorize/handler_utils.py:27 | the same for a valid user@host |
| HandlerUtils.SetFromCommaSeparatedString | python/lsst/ts/authorize/handler/base_authorize_handler.py:143 | the set of stripped comma-split pieces; never empty, since a split has at least one piece |
| HandlerUtils.FirstError | python/lsst/ts/authorize/authorize.py:176-177 | checking a list in order: Ok iff every entry passes, otherwise the error of the first entry that fails |
| HandlerUtils.CheckCscs | python/lsst/ts/authorize/handler/base_authorize_handler.py:149 | Ok iff every element of the set is a valid CSC; otherwise ValueError naming an invalid element of the set |
| HandlerUtils.CheckUserHosts | python/lsst/ts/authorize/handler/base_authorize_handler.py:156 | Ok iff every element is a valid user@host; otherwise ValueError naming an invalid element |
| Utils.CheckCsc | python/lsst/ts/authorize/utils.py:31-38 | the older check: the argument iff it matches the CSC pattern, ValueError otherwise |
| Utils.CheckUserHost | python/lsst/ts/authorize/utils.py:41-48 | the older check: the argument unchanged iff it matches the user@host pattern, ValueError otherwise |
| Utils.SameAsHandlerUtils | python/lsst/ts/authorize/utils.py:27-28 | both copies of both checks give the same result on every string |
| Utils.MeIsRejected | python/lsst/ts/authorize/utils.py:41-48 | `check_user_host("me")` raises: nothing substitutes `me` despite the docstring |
| BaseHandler.PiecesAndEntries | python/lsst/ts/authorize/handler/base_authorize_handler.py:143-163 | every stripped piece of a list passes a check iff every element of the collapsed set does |
| BaseHandler.PiecesAreEntries | python/lsst/ts/authorize/authorize.py:183-191 | every stripped piece passes a check iff every entry of the stripped piece list does |
| BaseHandler.CheckTargets | python/lsst/ts/authorize/handler/base_authorize_handler.py:143-149 | Ok iff every target piece is a valid CSC; otherwise ValueError naming an invalid target entry |
| BaseHandler.CheckUsers | python/lsst/ts/authorize/handler/base_authorize_handler.py:151-156 | an empty user string passes unchecked; otherwise one leading sign is dropped and Ok iff every piece is a valid user@host, else ValueError naming an invalid one |
| BaseHandler.CheckNonAuthorized | python/lsst/ts/authorize/handler/base_authorize_handler.py:158-163 | the same for the non-authorized CSC string, with the CSC check |
| BaseHandler.ValidateRequest | python/lsst/ts/authorize/handler/base_authorize_handler.py:121-165 | Ok iff the command is well formed (targets, users, non-authorized CSCs); the value is the set of stripped target pieces; an error names an invalid entry of the first bad list |
| BaseHandler.NoCscsUnreachable | python/lsst/ts/authorize/handler/base_authorize_handler.py:143-147 | the "No CSCs specified" error is never raised, since the target set is never empty |
| BaseHandler.BlankTargetsRejected | python/lsst/ts/authorize/handler/base_authorize_handler.py:143-149 | an empty or blank target string is rejected as the invalid CSC `""`, whatever the other fields hold |
| BaseHandler.CscNotEmpty | python/lsst/ts/authorize/handler_utils.py:26 | the empty string is not a valid CSC |
| BaseHandler.SecondSignKept | python/lsst/ts/authorize/handler/base_authorize_handler.py:153-154 | only the first character is dropped: a user string starting with two signs is rejected |
| BaseHandler.Dispatch | python/lsst/ts/authorize/handler/base_authorize_handler.py:92-119 | a target is in the failed map iff it answered AckError, with that error's message; it is in the succeeded set iff it acknowledged |
| BaseHandler.DispatchPartitions | python/lsst/ts/authorize/handler/base_authorize_handler.py:118-119 | succeeded and failed are disjoint, their union is the target set, and their sizes add up to its size |
| BaseHandler.SendOneMore | python/lsst/ts/authorize/handler/base_authorize_handler.py:95-108 | sending the request's own command to one more, new target keeps "each target contacted once, verbatim" |
| BaseHandler.AllRecorded | python/lsst/ts/authorize/handler/base_authorize_handler.py:118-119 | once every target is contacted, the recorded failures and `targets - failed` are the dispatch outcome |
| BaseHandler.SendToAll | python/lsst/ts/authorize/handler/base_authorize_handler.py:92-119 | the loop in any visiting order returns the Dispatch outcome, and sends each target exactly one command carrying both strings verbatim |
| BaseHandler.ProcessAuthorizeRequest | python/lsst/ts/authorize/handler/base_authorize_handler.py:71-119 | an invalid request raises the validation error and contacts no target; a valid one contacts each target once and returns the Dispatch outcome |
| AutoHandler.Verdict | python/lsst/ts/authorize/handler/auto_authorize_handler.py:49-55 | a validation error propagates unchanged; otherwise Ok iff the failed map is empty, and the RuntimeError carries the failed map and the succeeded set |
| AutoHandler.VerdictAsWritten | python/lsst/ts/authorize/handler/auto_authorize_handler.py:51 | as written: every dispatch that returns ends in AttributeError for `csc_failed_messages` |
| AutoHandler.AsWrittenRejectsCleanDispatch | python/lsst/ts/authorize/handler/auto_authorize_handler.py:49-55 | a dispatch where every target acknowledged returns normally under the intended verdict and raises as written |
| AutoHandler.HandleAuthorizeRequest | python/lsst/ts/authorize/handler/auto_authorize_handler.py:29-55 | every target is contacted once before the verdict; raises iff some target failed, naming failed and succeeded; a validation error contacts nobody |
| AutoHandler.RaisesIffSomeTargetFailed | python/lsst/ts/authorize/handler/auto_authorize_handler.py:51-55 | for a valid request, the handler raises iff some target answered AckError |
| AutoHandler.FailureReportsPartition | python/lsst/ts/authorize/handler/auto_authorize_handler.py:52-54 | the error's failed keys and succeeded set are disjoint and together are the targets |
| RestHandler.PostResponse | python/lsst/ts/authorize/handler/rest_authorize_handler.py:117-129 | the decoded body iff the status is 200, otherwise RuntimeError naming the status |
| RestHandler.TokenFrom | python/lsst/ts/authorize/handler/rest_authorize_handler.py:139-149 | the token is `response["data"]["token"]` exactly when the status is 200 and data with a token is present; no data is an unexpected response; any other status is an HTTP error |
| RestHandler.RecordToRequest | python/lsst/ts/authorize/handler/rest_authorize_handler.py:192-197 | a request is built iff the record has all four keys; otherwise KeyError for the first missing key in reading order |
| RestHandler.SubmitThenReadBack | python/lsst/ts/authorize/handler/rest_authorize_handler.py:163-168 | reading back a submitted request gives the request again, every string verbatim, sign prefixes included |
| RestHandler.ReadBackThenSubmit | python/lsst/ts/authorize/handler/rest_authorize_handler.py:192-197 | re-submitting a request read from a record posts exactly that record's fields |
| RestHandler.StatusOf | python/lsst/ts/authorize/handler/rest_authorize_handler.py:204-211 | Successful iff the failed map is empty, Failed otherwise, never Pending |
| RestHandler.ExecutionMessage | python/lsst/ts/authorize/handler/rest_authorize_handler.py:205-217 | the message starts with the "updated correctly" sentence and ends with a full stop |
| RestHandler.MessageReadsBack | python/lsst/ts/authorize/handler/rest_authorize_handler.py:205-217 | for every outcome over valid CSC names, the message reads back as that outcome: its first full stop closes a listing that reads back as the succeeded CSCs; the failed sentence follows exactly when some CSC failed, and its listing reads back as the failed CSCs |
| RestHandler.MessageAssembly | python/lsst/ts/authorize/handler/rest_authorize_handler.py:205-217 | the message is the heading, the sorted succeeded listing and a full stop, then the failed sentence exactly when the failed map is non-empty |
| RestHandler.ListingHasNoStop | python/lsst/ts/authorize/handler/rest_authorize_handler.py:207 | a listing of valid CSC names contains no full stop, so the first full stop ends it |
| RestHandler.ListingFacts | python/lsst/ts/authorize/handler/rest_authorize_handler.py:207 | a listing of valid CSC names has no full stop, is empty for no names, and reads back as the names otherwise |
| RestHandler.ListingReadsBack | python/lsst/ts/authorize/handler/rest_authorize_handler.py:207 | a sorted `", "` listing of valid CSCs reads back, through split and strip, as exactly the set listed |
| RestHandler.SuccessMessageNamesTargets | python/lsst/ts/authorize/handler/rest_authorize_handler.py:205-209 | the message of a clean outcome lists exactly the succeeded targets between the heading and the full stop |
| RestHandler.AllFailedMessage | python/lsst/ts/authorize/handler/rest_authorize_handler.py:205-217 | when every target failed, the first sentence still appears with an empty listing, followed by the failed sentence |
| RestHandler.FixtureListings | python/lsst/ts/authorize/testutils.py:254-255 | the listings of the fixture's target sets are `Test:5, Test:52` and `Test:999` |
| RestHandler.FixturePair | python/lsst/ts/authorize/testutils.py:254 | `Test:5` sorts before `Test:52`, so their listing is `Test:5, Test:52` |
| RestHandler.FixtureSingle | python/lsst/ts/authorize/testutils.py:255 | a one-element listing is the element |
| RestHandler.FixtureMessage | python/lsst/ts/authorize/testutils.py:254-255 | the message for two updated targets and one failed one is the fixture's expected text |
| RestHandler.SortedPair | python/lsst/ts/authorize/handler/rest_authorize_handler.py:207 | two strings in order sort as that pair |
| RestHandler.PrefixIsLess | python/lsst/ts/authorize/handler/rest_authorize_handler.py:207 | a proper prefix sorts before the longer string |
| RestHandler.EchoErrors | python/lsst/ts/authorize/handler/rest_authorize_handler.py:226-246 | nothing is logged iff the echo equals the PUT; a different id logs only the id mismatch; status and message are compared only when the id matches |
| RestHandler.StatusMeansAllAcked | python/lsst/ts/authorize/handler/rest_authorize_handler.py:201-211 | the status is Successful iff every target acknowledged |
| RestHandler.Respond | python/lsst/ts/authorize/handler/rest_authorize_handler.py:198-224 | a PUT iff the request validates, under the record id, Successful iff every target acknowledged; otherwise the validation error |
| RestHandler.Execute | python/lsst/ts/authorize/handler/rest_authorize_handler.py:190-224 | a PUT iff the record has its keys and is well formed, under the record's id, Successful iff every target acknowledged |
| RestHandler.ProcessRecord | python/lsst/ts/authorize/handler/rest_authorize_handler.py:191-224 | the imperative body for one record computes exactly Execute, and sends each target of a well-formed request its command exactly once; a record that raises sends nothing |
| RestHandler.Reconcile | python/lsst/ts/authorize/handler/rest_authorize_handler.py:190-246 | records are handled in order with one PUT each; the cycle stops at the first record that raises, with that error, and only then |
| RestHandler.ReconcileUnique | python/lsst/ts/authorize/handler/rest_authorize_handler.py:190-246 | any PUT sequence matching the records up to the first failure is the cycle's |
| RestHandler.EchoLogEmpty | python/lsst/ts/authorize/handler/rest_authorize_handler.py:226-246 | a cycle logs nothing iff every PUT was echoed back unchanged |
| RestHandler.CancelTask | python/lsst/ts/authorize/handler/rest_authorize_handler.py:248-255 | cancelling marks the current task cancelled and changes no other task; cancelling the done future changes nothing |
| RestHandler.StartLeavesOneLive | python/lsst/ts/authorize/handler/rest_authorize_handler.py:248-252 | cancelling the current task and then creating one leaves exactly the new task live |
| RestHandler.StopLeavesNoneLive | python/lsst/ts/authorize/handler/rest_authorize_handler.py:254-255 | stop leaves no task live |
| RestHandler.CancelDoneIsHarmless | python/lsst/ts/authorize/handler/base_authorize_handler.py:57 | cancelling the initially done future changes nothing |
| RestHandler.RestAuthorizeHandler.constructor | python/lsst/ts/authorize/handler/rest_authorize_handler.py:92-109 | no token, no response, the done future as polling task |
| RestHandler.TokenAfter | python/lsst/ts/authorize/handler/rest_authorize_handler.py:131-149 | the token after `authenticate`: the reply's token; "" for a 200 reply without data; unchanged for a non-200 reply or data without a token |
| RestHandler.ResponseAfter | python/lsst/ts/authorize/handler/rest_authorize_handler.py:139-141 | `self.response` after `authenticate`: the reply for status 200, unchanged otherwise |
| RestHandler.RestAuthorizeHandler.Authenticate | python/lsst/ts/authorize/handler/rest_authorize_handler.py:131-149 | stores the reply and the token (TokenAfter, ResponseAfter); resets the token to "" and raises on a reply without data; raises on a non-200 status |
| RestHandler.RestAuthorizeHandler.HandleAuthorizeRequest | python/lsst/ts/authorize/handler/rest_authorize_handler.py:151-172 | the token always as TokenAfter; on a failed authentication the response as ResponseAfter and nothing posted; after a good token, posts the four strings under their server names with the token as Authorization header; contacts no target |
| RestHandler.RestAuthorizeHandler.ProcessApprovedAndUnprocessed | python/lsst/ts/authorize/handler/rest_authorize_handler.py:174-246 | the token always as TokenAfter; on a failed authentication the response as ResponseAfter and nothing else changes; otherwise stores the record list (also when it is None) and appends exactly the cycle's PUTs and echo-check lines; ends with the first record's error, if any; what the targets were sent is, record by record, what each executed record sends, and nothing for the record that raised or the records after it |
| RestHandler.RestAuthorizeHandler.PutNext | python/lsst/ts/authorize/handler/rest_authorize_handler.py:190-246 | one turn of the record loop: the step's result; its PUT and echo lines appended unless it raised; its commands extend the traces |
| RestHandler.RestAuthorizeHandler.ReconcileRecords | python/lsst/ts/authorize/handler/rest_authorize_handler.py:190-246 | the record loop runs ProcessRecord on each record in order, appends the Reconcile PUTs and their log lines, returns the cycle's error, and sends what the executed records send, one after the other |
| RestHandler.RestAuthorizeHandler.Start | python/lsst/ts/authorize/handler/rest_authorize_handler.py:248-252 | the old task is cancelled and a new running one becomes current; exactly it is live |
| RestHandler.RestAuthorizeHandler.Stop | python/lsst/ts/authorize/handler/rest_authorize_handler.py:254-255 | the current task is cancelled; no task is live |
| AuthorizeCsc.LegacyValidateRequest | python/lsst/ts/authorize/authorize.py:148-193 | Ok iff the command is well formed, with the set of stripped target pieces; an error names an invalid entry of the first bad list |
| AuthorizeCsc.FirstBadUserHost | python/lsst/ts/authorize/authorize.py:183-184 | Ok iff every entry is a valid user@host; otherwise ValueError for the first invalid entry in list order |
| AuthorizeCsc.FirstBadCsc | python/lsst/ts/authorize/authorize.py:190-191 | Ok iff every entry is a valid CSC; otherwise ValueError for the first invalid entry in list order |
| AuthorizeCsc.CheckListedUsers | python/lsst/ts/authorize/authorize.py:179-184 | an empty string passes; otherwise, one sign dropped, Ok iff every stripped piece is a valid user@host, else the first invalid piece in list order |
| AuthorizeCsc.CheckListedNonAuthorized | python/lsst/ts/authorize/authorize.py:186-191 | the same for the non-authorized CSCs with the CSC check |
| AuthorizeCsc.LegacyAgreesWithHandlers | python/lsst/ts/authorize/authorize.py:148-193 | the CSC and the handlers accept the same commands with the same targets, and reject a bad target list with the same error |
| AuthorizeCsc.FailedTargetsMatchDispatch | python/lsst/ts/authorize/authorize.py:119-146 | the CSC's failed set is the key set of the handlers' failed map, and the rest is the succeeded set |
| AuthorizeCsc.SendCollectingFailures | python/lsst/ts/authorize/authorize.py:119-139 | in any visiting order, the failed set is exactly the targets that answered AckError, and each target is sent one verbatim command |
| AuthorizeCsc.Authorize.constructor | python/lsst/ts/authorize/authorize.py:59-75 | no configuration stored |
| AuthorizeCsc.Authorize.Configure | python/lsst/ts/authorize/authorize.py:77-96 | NotImplementedError iff automatic authorization is off, leaving the configuration unchanged; otherwise the configuration is stored |
| AuthorizeCsc.Authorize.DoRequestAuthorization | python/lsst/ts/authorize/authorize.py:102-146 | refused unless enabled; AttributeError without a configuration; a validation error contacts nobody; otherwise every target is contacted once and RuntimeError with failed and `targets - failed` is raised iff some target failed |
| RequestAuthorization.Prefix | python/lsst/ts/authorize/request_authorization.py:71-76 | no prefix when replacing; otherwise a sign (`+` to add, `-` to remove) and a space, of which the validators drop only the sign |
| RequestAuthorization.ReplaceMe | python/lsst/ts/authorize/request_authorization.py:78-82 | exactly `"me"` becomes the caller's user@host; every other string is unchanged |
| RequestAuthorization.Replaced | python/lsst/ts/authorize/request_authorization.py:91-93 | `replace_me` applied to each user, in order |
| RequestAuthorization.CheckEach | python/lsst/ts/authorize/request_authorization.py:85 | a checking comprehension: the checked values in order iff every entry passes, otherwise the error of the first failing entry |
| RequestAuthorization.CheckCscList | python/lsst/ts/authorize/request_authorization.py:85-99 | the list itself iff every entry is a valid CSC, otherwise ValueError for the first invalid one |
| RequestAuthorization.CheckUserHostList | python/lsst/ts/authorize/request_authorization.py:91-93 | the list itself iff every entry is a valid user@host, otherwise ValueError for the first invalid one |
| RequestAuthorization.UsersArgument | python/lsst/ts/authorize/request_authorization.py:88-94 | absent gives ""; present gives prefix plus the users, `me` replaced, joined with ", ", iff all are valid; else the first invalid one |
| RequestAuthorization.NonAuthorizedArgument | python/lsst/ts/authorize/request_authorization.py:96-100 | absent gives ""; present gives prefix plus the CSCs joined with ", " iff all are valid; else the first invalid one |
| RequestAuthorization.BuildRequest | python/lsst/ts/authorize/request_authorization.py:84-102 | a command iff every argument is valid, with the unprefixed CSC list and the prefixed user and CSC lists; otherwise the error of the first invalid entry, checking CSCs, then users, then blocked CSCs |
| RequestAuthorization.CscsJoinable | python/lsst/ts/authorize/request_authorization.py:85-86 | valid CSCs can be joined into a list that splits back |
| RequestAuthorization.UserHostsJoinable | python/lsst/ts/authorize/request_authorization.py:91-94 | valid user@host values can be joined into a list that splits back |
| RequestAuthorization.TargetsReadBack | python/lsst/ts/authorize/request_authorization.py:86 | the unprefixed target string reads back as exactly the CSCs joined |
| RequestAuthorization.SignDropped | python/lsst/ts/authorize/request_authorization.py:94-100 | the validators' sign stripping takes off the sign of a prefix and leaves an unprefixed list alone |
| RequestAuthorization.ListReadsBack | python/lsst/ts/authorize/request_authorization.py:94-100 | behind any prefix, a joined list reads back through the validators as exactly the entries joined |
| RequestAuthorization.EntriesMakeEveryPiece | python/lsst/ts/authorize/handler/base_authorize_handler.py:155-156 | entries that all pass a check make every piece of the list pass it |
| RequestAuthorization.BuiltRequestIsWellFormed | python/lsst/ts/authorize/request_authorization.py:84-102 | a command built from non-empty lists is well formed and its three lists read back as the arguments given (`me` replaced) |
| RequestAuthorization.BuiltRequestIsAccepted | python/lsst/ts/authorize/request_authorization.py:113-117 | both validators accept a command built from non-empty lists, returning exactly the CSCs given |
| RequestAuthorization.BarePrefixEntries | python/lsst/ts/authorize/request_authorization.py:94 | a bare `+ ` or `- ` reads as one empty entry |
| RequestAuthorization.EmptyUserList | python/lsst/ts/authorize/request_authorization.py:88-94 | an empty `-u` list gives the bare prefix; that is accepted when replacing and rejected as the empty user otherwise |
| RequestAuthorization.BuiltWithEmptyUsers | python/lsst/ts/authorize/request_authorization.py:91-94 | an empty `-u` list builds the bare prefix as the user string |
| RequestAuthorization.EmptyEntryRejected | python/lsst/ts/authorize/handler/base_authorize_handler.py:152-156 | a user list that reads as one empty entry is rejected, naming the empty entry |
| RequestAuthorization.BarePrefixValidation | python/lsst/ts/authorize/handler/base_authorize_handler.py:151-156 | validation of a bare-prefix user string: accepted when empty, rejected as the empty user behind a sign |
| RequestAuthorization.WellFormedAccepted | python/lsst/ts/authorize/handler/base_authorize_handler.py:121-165 | a well-formed command is accepted with its target set |
| RequestAuthorization.BuiltTargetsValid | python/lsst/ts/authorize/handler/base_authorize_handler.py:143-149 | a joined list of valid CSCs is a valid target string whose set is those CSCs |
| Text.Strip | python/lsst/ts/authorize/authorize.py:170 | `str.strip()`: the result has no white space (Python's full `isspace` set, Unicode white space included) at either end |
| Text.StripNoBreakSpace | python/lsst/ts/authorize/authorize.py:170 | a no-break space in front of an entry is stripped |
| Text.JoinAvoids | python/lsst/ts/authorize/handler/rest_authorize_handler.py:207 | a character in neither the separator nor any entry is not in their join |
| Text.StripRemovesOnlySpace | python/lsst/ts/authorize/authorize.py:170 | the result is a contiguous slice of the input |
| Text.StripLeftSuffix | python/lsst/ts/authorize/authorize.py:184 | stripping the left end removes a prefix made only of white space |
| Text.StripRightPrefix | python/lsst/ts/authorize/authorize.py:184 | stripping the right end removes a suffix made only of white space |
| Text.StripAll | python/lsst/ts/authorize/authorize.py:170 | each piece stripped, in order |
| Text.StripPadded | python/lsst/ts/authorize/authorize.py:170 | white space in front of a trimmed string is exactly what strip removes |
| Text.StripKeepsFirst | python/lsst/ts/authorize/authorize.py:184 | a string that does not start with white space keeps its first character |
| Text.Split | python/lsst/ts/authorize/authorize.py:170 | `str.split(",")` yields at least one piece |
| Text.SplitNoComma | python/lsst/ts/authorize/authorize.py:183 | no piece of a split contains a comma |
| Text.JoinSplit | python/lsst/ts/authorize/authorize.py:183 | joining the pieces with "," gives back the string |
| Text.SplitJoin | python/lsst/ts/authorize/authorize.py:183 | splitting a ","-join of comma-free pieces gives back the pieces |
| Text.SplitStripJoin | python/lsst/ts/authorize/request_authorization.py:86 | a ", "-join of trimmed comma-free entries, behind white space, splits and strips back to exactly the entries |
| Text.LessIrreflexive | python/lsst/ts/authorize/handler/rest_authorize_handler.py:207 | string order is irreflexive |
| Text.LessAsymmetric | python/lsst/ts/authorize/handler/rest_authorize_handler.py:207 | string order is asymmetric |
| Text.LessTransitive | python/lsst/ts/authorize/handler/rest_authorize_handler.py:207 | string order is transitive |
| Text.LessTotal | python/lsst/ts/authorize/handler/rest_authorize_handler.py:207 | two different strings are ordered one way or the other |
| Text.LeastExists | python/lsst/ts/authorize/handler/rest_authorize_handler.py:207 | every non-empty set of strings has a least element |
| Text.Least | python/lsst/ts/authorize/handler/rest_authorize_handler.py:207 | the least element of a non-empty set |
| Text.Sorted | python/lsst/ts/authorize/handler/rest_authorize_handler.py:207 | `sorted(s)`: the elements of the set, each once, strictly increasing |

## Findings

| source | as written | input that shows it | evidently intended | confidence | as-written member | corrected member |
|---|---|---|---|---|---|---|
| python/lsst/ts/authorize/handler/auto_authorize_handler.py:49-55 | discards the `(failed, succeeded)` pair that `process_authorize_request` returns, then reads `self.csc_failed_messages`, which no class ever assigns | any valid request where every target acknowledges, e.g. targets `{"Test:5"}`: AttributeError instead of a normal return | use the returned pair: return normally iff the failed map is empty, else RuntimeError naming failed and succeeded | not executed | AutoHandler.VerdictAsWritten, AutoHandler.AsWrittenRejectsCleanDispatch | AutoHandler.Verdict |

`AutoHandler.HandleAuthorizeRequest` uses the corrected verdict.

Two behaviours of the code that its own documentation does not lead one
to expect:

- The docstrings of `validate_request` say it raises `salobj.ExpectedError`
  if no CSC is specified
  (python/lsst/ts/authorize/handler/base_authorize_handler.py:136-139 and
  python/lsst/ts/authorize/authorize.py:163-166). The guard that would raise
  it (base_authorize_handler.py:143-147, authorize.py:170-174) can never
  fire, because `split` always yields at least one piece, so the target set
  is never empty (`BaseHandler.NoCscsUnreachable`). An empty or blank target
  string is instead rejected as the invalid CSC `""`
  (`BaseHandler.BlankTargetsRejected`).
- Neither the record loop of
  `process_approved_and_unprocessed_auth_requests`
  (python/lsst/ts/authorize/handler/rest_authorize_handler.py:190-246) nor
  `perform_periodic_task` (rest_authorize_handler.py:257-260) catches an
  exception. The first record that raises therefore ends the cycle, and the
  records after it get no PUT (`RestHandler.Reconcile`,
  `RestHandler.RestAuthorizeHandler.ReconcileRecords`).

A REST submission is posted without validation. The request is validated
only when an approved record is executed.

## Left out

- Transport (`salobj.Remote`, `set_start`, `Domain`): each target's answer is an oracle `Command -> Reply`. A timeout is one more AckError, not time.
- One oracle answers every command of a REST polling cycle, so within one cycle two identical commands to the same target get the same reply; a target whose answer changes between records of a cycle is not modelled.
- `ack_in_progress` and its timeout in `do_requestAuthorization`: a progress notice with no effect on the result; reading the timeout is kept as the AttributeError it raises while no configuration is stored.
- `salobj.name_to_name_index`: a foreign call; the target string is used as is.
- HTTP sessions, URLs, headers beyond Authorization, and JSON decoding: replies come in as parameters (status, decoded token data, record list, echo function). A record's fields are typed strings, so `str()` conversion of non-string values is not modelled.
- The `"id"` key of a record and of a PUT echo is taken as always present, and an echo is typed as a PUT; a missing key there (KeyError) is not modelled.
- The GET of approved records has no status check in the source, and none in the model.
- The environment variables read by the REST handler's constructor (the error when they are unset), and logging other than the echo check's error lines.
- `asyncio` tasks, the lock, `sleep` and the endless loop of `perform_periodic_task`: the model keeps the list of created tasks and which is current, and takes cancellation to act at once. One polling cycle is `ProcessApprovedAndUnprocessed`.
- `check_cscs`, `check_user_hosts` and `set_from_comma_separated_string` are imported by base_authorize_handler.py but not defined in this version of handler_utils.py: they are modelled as "split on `,`, strip, make a set" and "check each element". Python's set iteration order is unspecified, so the model checks a set in sorted order.
- HandlerUtils.CheckCscs: states only that the named element is invalid, not which one, because Python's set order is unspecified.
- HandlerUtils.CheckUserHosts: likewise.
- The exact text of error messages: errors are datatype constructors carrying the offending values.
- Regular-expression details: matching is over ASCII; `$` means the end of the string (Python also matches before one trailing newline) and `\d` means ASCII digits only (Python also accepts other Unicode digits).
- The command-line tool's `argparse`, printing and `salobj.get_user_host`: the parsed arguments and the caller's user@host are parameters, and sending the command is left out. `nargs="+"` (at least one CSC) is not a precondition of `BuildRequest`; the lemmas about what the validators read back require non-empty lists.
- RequestAuthorization.ReplaceMe: its contract is its definition; what is worth stating about it is in `RequestAuthorization.ReplaceMeValid`, which Dafny proves without a proof body.
- `config_schema.py`, `setup.py`, the test CSC, the mock web server and the test fixtures are not part of this model; the fixture's expected message is used as the example in `RestHandler.FixtureMessage`.
