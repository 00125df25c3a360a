/** rest_authorize_handler.py: requests are forwarded to a REST server for
    an operator to approve; approved requests are polled for, applied, and
    their outcome reported back with one PUT per request. */
module RestHandler {
  import opened AuthTypes
  import opened Text
  import opened HandlerUtils
  import opened BaseHandler

  /** HTTPStatus.OK */
  const StatusOk: int := 200

  datatype ExecutionStatus = Pending | Successful | Failed

  /** The request fields of a server record, by their JSON names (see
      JsonName). */
  datatype Key = CscsToChange | AuthorizedUsers | UnauthorizedCscs | RequestedBy

  function JsonName(k: Key): string
  {
    match k
    case CscsToChange => "cscs_to_change"
    case AuthorizedUsers => "authorized_users"
    case UnauthorizedCscs => "unauthorized_cscs"
    case RequestedBy => "requested_by"
  }

  /** One server record of an authorization request: its id and its string
      fields. */
  datatype RestRecord = RestRecord(id: int, fields: map<Key, string>)

  /** The JSON body of the PUT to "{id}/execute"; the server echoes one back. */
  datatype Put = Put(id: int, executionStatus: ExecutionStatus, executionMessage: string)

  /** The error lines the echo check logs. */
  datatype LogEntry =
    | IdMismatch(echoed: int, requested: int)
    | StatusMismatch(id: int, echoedStatus: ExecutionStatus, requestedStatus: ExecutionStatus)
    | MessageMismatch(id: int, echoedMessage: string, requestedMessage: string)

  /** A POST of a new request to the server, with its Authorization header. */
  datatype Submission = Submission(body: map<Key, string>, authorization: string)

  /** What `self.response` holds: nothing yet, the get-token reply, the reply
      to a submission, or the decoded list of approved records. */
  datatype Response =
    | NoResponse
    | TokenReply(data: Option<map<string, string>>)
    | SubmissionReply(body: map<string, string>)
    | RecordList(records: Option<seq<RestRecord>>)

  /** The polling task: `make_done_future()` or a task created by `start`. */
  datatype Future = Done | Handle(id: nat)

  /** A task that was created: still running, or cancelled. */
  datatype TaskState = Running(sleepTime: real) | Cancelled

  // ---------------------------------------------------------------------
  // _get_post_response and authenticate

  /** `_get_post_response`: the decoded body for status 200, otherwise a
      RuntimeError naming the status. */
  function PostResponse<B>(status: int, body: B): (r: Result<B>)
    ensures r.Ok? <==> status == StatusOk
    ensures r.Ok? ==> r.value == body
    ensures r.Err? ==> r.error == HttpError(status)
  {
    if status == StatusOk then Ok(body) else Err(HttpError(status))
  }

  /** The token `authenticate` obtains: `response["data"]["token"]`. A reply
      without "data" is an unexpected response; one whose data has no
      "token" raises KeyError. */
  function TokenFrom(status: int, data: Option<map<string, string>>): (r: Result<string>)
    ensures r.Ok? <==> status == StatusOk && data.Some? && "token" in data.value
    ensures r.Ok? ==> r.value == data.value["token"]
    ensures status == StatusOk && data.None? ==> r == Err(UnexpectedResponse)
    ensures status != StatusOk ==> r == Err(HttpError(status))
  {
    var d :- PostResponse(status, data);
    if d.None? then Err(UnexpectedResponse)
    else if "token" !in d.value then Err(MissingKey("token"))
    else Ok(d.value["token"])
  }

  // ---------------------------------------------------------------------
  // The field mapping between a request and a server record

  /** The JSON body `handle_authorize_request` posts: the four request
      strings verbatim, `non_authorized_cscs` renamed "unauthorized_cscs" and
      `private_identity` renamed "requested_by". */
  function SubmissionBody(d: AuthRequest): map<Key, string>
  {
    map[CscsToChange := d.cscsToChange,
        AuthorizedUsers := d.authorizedUsers,
        UnauthorizedCscs := d.nonAuthorizedCscs,
        RequestedBy := d.privateIdentity]
  }

  /** The keys a record must carry, in the order they are read. */
  const RecordKeys: seq<Key> := [AuthorizedUsers, CscsToChange, UnauthorizedCscs, RequestedBy]

  /** The request built from a record: each key read in turn, the first
      missing one raising KeyError. */
  function RecordToRequest(rec: RestRecord): (r: Result<AuthRequest>)
    ensures r.Ok? <==> forall i :: 0 <= i < |RecordKeys| ==> RecordKeys[i] in rec.fields
    ensures r.Err? ==> exists i :: 0 <= i < |RecordKeys| && r.error == MissingKey(JsonName(RecordKeys[i]))
                          && RecordKeys[i] !in rec.fields
                          && forall j :: 0 <= j < i ==> RecordKeys[j] in rec.fields
  {
    var f := rec.fields;
    if AuthorizedUsers !in f then
      assert RecordKeys[0] == AuthorizedUsers;
      Err(MissingKey(JsonName(AuthorizedUsers)))
    else if CscsToChange !in f then
      assert RecordKeys[1] == CscsToChange;
      Err(MissingKey(JsonName(CscsToChange)))
    else if UnauthorizedCscs !in f then
      assert RecordKeys[2] == UnauthorizedCscs;
      Err(MissingKey(JsonName(UnauthorizedCscs)))
    else if RequestedBy !in f then
      assert RecordKeys[3] == RequestedBy;
      Err(MissingKey(JsonName(RequestedBy)))
    else Ok(AuthRequest(f[CscsToChange], f[AuthorizedUsers], f[UnauthorizedCscs], f[RequestedBy]))
  }

  /** Submitting a request and reading the stored record back gives the
      request again, every string verbatim, sign prefixes included. */
  lemma SubmitThenReadBack(id: int, d: AuthRequest)
    ensures RecordToRequest(RestRecord(id, SubmissionBody(d))) == Ok(d)
  {
  }

  /** Conversely, a request read from a record is what that record's fields
      say: submitting it again posts exactly those fields. */
  lemma ReadBackThenSubmit(rec: RestRecord)
    requires RecordToRequest(rec).Ok?
    ensures forall k :: k in SubmissionBody(RecordToRequest(rec).value) ==>
              k in rec.fields && rec.fields[k] == SubmissionBody(RecordToRequest(rec).value)[k]
  {
    assert RecordKeys[3] == RequestedBy;
  }

  // ---------------------------------------------------------------------
  // What is reported for one processed request

  /** `execution_status`: Successful unless some target failed. */
  function StatusOf(o: Outcome): (s: ExecutionStatus)
    ensures s == Successful <==> o.failedMessages == map[]
    ensures s != Pending
  {
    if |o.failedMessages| > 0 then Failed else Successful
  }

  const SucceededHead: string := "The following CSCs were updated correctly: "
  const FailedHead: string := " The following CSCs failed to update correctly: "

  /** The listing of a set of CSC names: sorted, joined with ", ". */
  function Listing(names: set<string>): string
  {
    Join(", ", Sorted(names))
  }

  /** `execution_message`: the succeeded CSCs, then, when some failed, the
      failed CSCs; each sentence ends with a full stop. */
  function ExecutionMessage(o: Outcome): (m: string)
    ensures |m| > |SucceededHead| && m[..|SucceededHead|] == SucceededHead && m[|m| - 1] == '.'
  {
    var head := SucceededHead + Listing(o.succeeded) + ".";
    if |o.failedMessages| > 0 then head + FailedHead + Listing(o.failedMessages.Keys) + "." else head
  }

  /** A listing of valid CSC names can be read back: splitting it on ",",
      stripping each piece and collecting the set gives the names. */
  lemma ListingReadsBack(names: set<string>)
    requires names != {}
    requires forall x :: x in names ==> CscPattern(x)
    ensures SetFromCommaSeparatedString(Listing(names)) == names
  {
    var xs := Sorted(names);
    forall i | 0 <= i < |xs| ensures ',' !in xs[i] && Trimmed(xs[i]) {
      assert xs[i] in names;
      CscIsListSafe(xs[i]);
    }
    SplitStripJoin("", xs);
    assert "" + Listing(names) == Listing(names);
  }

  /** The message of a clean outcome names exactly the targets. */
  lemma SuccessMessageNamesTargets(o: Outcome)
    requires o.failedMessages == map[] && o.succeeded != {}
    requires forall x :: x in o.succeeded ==> CscPattern(x)
    ensures var m := ExecutionMessage(o);
      SetFromCommaSeparatedString(m[|SucceededHead|..|m| - 1]) == o.succeeded
  {
    var m := ExecutionMessage(o);
    assert m == SucceededHead + Listing(o.succeeded) + ".";
    assert m[|SucceededHead|..|m| - 1] == Listing(o.succeeded);
    ListingReadsBack(o.succeeded);
  }

  /** When every target failed the first sentence still appears, with an
      empty listing. */
  lemma AllFailedMessage(o: Outcome)
    requires o.succeeded == {} && o.failedMessages != map[]
    ensures ExecutionMessage(o) == SucceededHead + "." + FailedHead + Listing(o.failedMessages.Keys) + "."
  {
    assert Sorted({}) == [];
  }

  /** A listing of valid CSC names has no full stop in it. */
  lemma ListingHasNoStop(names: set<string>)
    requires forall x :: x in names ==> CscPattern(x)
    ensures '.' !in Listing(names)
  {
    var xs := Sorted(names);
    forall i | 0 <= i < |xs| ensures '.' !in xs[i] {
      assert xs[i] in names;
      CscChars(xs[i]);
    }
    JoinAvoids('.', ", ", xs);
  }

  /** `m` opens with heading `h1` and a listing ending in the full stop at
      `k`, which `read` reads back as `names` (an empty listing when `names`
      is empty). */
  ghost predicate ListedUpTo(h1: string, read: string -> set<string>, m: string, k: int, names: set<string>)
  {
    && |h1| <= k < |m| && m[k] == '.' && '.' !in m[|h1|..k]
    && (names == {} ==> k == |h1|)
    && (names != {} ==> read(m[|h1|..k]) == names)
  }

  /** After the full stop at `k`, `m` ends exactly when nothing failed, and
      otherwise holds the sentence headed `h2` whose listing `read` reads
      back as the failed CSCs. */
  ghost predicate FailedAfter(h2: string, read: string -> set<string>, m: string, k: int, failed: set<string>)
    requires 0 <= k < |m|
  {
    && (k == |m| - 1 <==> failed == {})
    && (failed != {} ==>
          && k + 1 + |h2| < |m|
          && m[k + 1..k + 1 + |h2|] == h2
          && read(m[k + 1 + |h2|..|m| - 1]) == failed)
  }

  /** `m` reads as the execution message of `o`, its first full stop after
      the opening heading being at `k`: the succeeded listing reads back as
      the succeeded CSCs, and the failed sentence is there exactly when some
      CSC failed, its listing reading back as the failed CSCs. */
  ghost predicate MessageSays(m: string, k: int, o: Outcome)
  {
    && ListedUpTo(SucceededHead, SetFromCommaSeparatedString, m, k, o.succeeded)
    && FailedAfter(FailedHead, SetFromCommaSeparatedString, m, k, o.failedMessages.Keys)
  }

  lemma ListedFromParts(h1: string, read: string -> set<string>, m: string, k: int, l: string, names: set<string>)
    requires |h1| <= k < |m| && m[|h1|..k] == l && m[k] == '.' && '.' !in l
    requires names == {} ==> l == ""
    requires names != {} ==> read(l) == names
    ensures ListedUpTo(h1, read, m, k, names)
  {
  }

  lemma FailedFromParts(h2: string, read: string -> set<string>, m: string, k: int, rest: string, f: string, failed: set<string>)
    requires 0 <= k < |m| && |m| == k + 1 + |rest| && m[k + 1..] == rest
    requires failed == {} ==> rest == ""
    requires failed != {} ==> rest == h2 + f + "." && read(f) == failed
    ensures FailedAfter(h2, read, m, k, failed)
  {
    if failed != {} {
      TailParts(h2, f, m, k + 1);
    }
  }

  /** Where the listing, the full stop and the tail sit in a message. */
  lemma MessageParts(h1: string, l: string, rest: string)
    ensures var m := h1 + l + "." + rest; var k := |h1| + |l|;
      && |m| == k + 1 + |rest| && m[|h1|..k] == l && m[k] == '.' && m[k + 1..] == rest
  {
    var m := h1 + l + "." + rest;
    var k := |h1| + |l|;
    ConcatParts(h1 + l + ".", rest);
    ConcatParts(h1 + l, ".");
    ConcatParts(h1, l);
    assert m[..k + 1] == h1 + l + ".";
    assert m[|h1|..k] == (h1 + l + ".")[|h1|..k];
  }

  /** Where the heading and the listing sit in a failed sentence that ends
      `m` from position `j`. */
  lemma TailParts(h2: string, f: string, m: string, j: int)
    requires 0 <= j <= |m| && m[j..] == h2 + f + "."
    ensures j + |h2| < |m| && m[j..j + |h2|] == h2 && m[j + |h2|..|m| - 1] == f
  {
    var n := |h2|;
    ConcatParts(h2, f + ".");
    assert m[j..] == h2 + (f + ".");
    SuffixSlices(m, j, n);
    assert m[j + n..] == f + ".";
    ConcatParts(f, ".");
    assert m[j + n..|m| - 1] == (f + ".")[..|f|];
  }

  lemma ConcatParts(a: string, b: string)
    ensures (a + b)[..|a|] == a && (a + b)[|a|..] == b
  {
  }

  /** The two shapes of a message, as head and tail. */
  lemma MessageShape(h1: string, l: string, h2: string, f: string)
    ensures h1 + l + "." + h2 + f + "." == h1 + l + "." + (h2 + f + ".")
    ensures h1 + l + "." == h1 + l + "." + ""
  {
  }

  /** What a listing of valid CSC names gives its reader: no full stop,
      nothing at all for no names, and the names back otherwise. */
  lemma ListingFacts(names: set<string>)
    requires forall x :: x in names ==> CscPattern(x)
    ensures '.' !in Listing(names)
    ensures names == {} ==> Listing(names) == ""
    ensures names != {} ==> SetFromCommaSeparatedString(Listing(names)) == names
  {
    ListingHasNoStop(names);
    if names == {} {
      assert Sorted(names) == [];
    } else {
      ListingReadsBack(names);
    }
  }

  /** The execution message as heading, succeeded listing, full stop and
      the failed sentence when some CSC failed. */
  lemma MessageAssembly(o: Outcome)
    ensures ExecutionMessage(o) == SucceededHead + Listing(o.succeeded) + "."
      + (if o.failedMessages.Keys == {} then "" else FailedHead + Listing(o.failedMessages.Keys) + ".")
  {
    if o.failedMessages != map[] {
      var t :| t in o.failedMessages;
      assert t in o.failedMessages.Keys;
    }
    MessageShape(SucceededHead, Listing(o.succeeded), FailedHead, Listing(o.failedMessages.Keys));
  }

  /** A message assembled from listings that `read` reads back as `names`
      and `failed` says so. */
  lemma ReadsBackFrom(h1: string, h2: string, read: string -> set<string>, m: string, l: string, f: string,
                      names: set<string>, failed: set<string>)
    requires '.' !in l
    requires names == {} ==> l == ""
    requires names != {} ==> read(l) == names
    requires failed != {} ==> read(f) == failed
    requires m == h1 + l + "." + (if failed == {} then "" else h2 + f + ".")
    ensures ListedUpTo(h1, read, m, |h1| + |l|, names)
    ensures FailedAfter(h2, read, m, |h1| + |l|, failed)
  {
    var rest := if failed == {} then "" else h2 + f + ".";
    MessageParts(h1, l, rest);
    ListedFromParts(h1, read, m, |h1| + |l|, l, names);
    FailedFromParts(h2, read, m, |h1| + |l|, rest, f, failed);
  }

  /** The message of every outcome over valid CSC names reads back as that
      outcome. */
  lemma MessageReadsBack(o: Outcome)
    requires forall x :: x in o.succeeded ==> CscPattern(x)
    requires forall x :: x in o.failedMessages ==> CscPattern(x)
    ensures exists k :: MessageSays(ExecutionMessage(o), k, o)
  {
    var keys := o.failedMessages.Keys;
    var l, f := Listing(o.succeeded), Listing(keys);
    ListingFacts(o.succeeded);
    ListingFacts(keys);
    MessageAssembly(o);
    ReadsBackFrom(SucceededHead, FailedHead, SetFromCommaSeparatedString, ExecutionMessage(o), l, f, o.succeeded, keys);
    assert MessageSays(ExecutionMessage(o), |SucceededHead| + |l|, o);
  }

  lemma SortedPair(a: string, b: string)
    requires Less(a, b)
    ensures Sorted({a, b}) == [a, b]
  {
    var r := Sorted({a, b});
    LessIrreflexive(a);
    assert a != b;
    assert |r| == 2;
    assert r[0] in {a, b} && r[1] in {a, b};
    assert Less(r[0], r[1]);
    LessIrreflexive(r[0]);
    if r[0] == b {
      LessAsymmetric(a, b);
    }
  }

  /** A proper prefix sorts first. */
  lemma {:induction false} PrefixIsLess(a: string, b: string)
    requires |a| < |b| && a == b[..|a|]
    ensures Less(a, b)
  {
    if a != [] {
      assert a[1..] == b[1..][..|a| - 1];
      PrefixIsLess(a[1..], b[1..]);
    }
  }

  lemma FixtureListings()
    ensures Listing({"Test:5", "Test:52"}) == "Test:5, Test:52"
    ensures Listing({"Test:999"}) == "Test:999"
  {
    FixturePair();
    FixtureSingle();
  }

  lemma FixturePair()
    ensures Listing({"Test:5", "Test:52"}) == "Test:5, Test:52"
  {
    var a, b := "Test:5", "Test:52";
    PrefixIsLess(a, b);
    SortedPair(a, b);
    assert Join(", ", [a, b]) == a + ", " + b;
  }

  lemma FixtureSingle()
    ensures Listing({"Test:999"}) == "Test:999"
  {
    assert Sorted({"Test:999"}) == ["Test:999"];
  }

  /** The message of the second approved request of the test fixtures: two
      targets updated, one unreachable. */
  lemma FixtureMessage()
    ensures ExecutionMessage(Outcome(map["Test:999" := "timeout"], {"Test:5", "Test:52"}))
         == SucceededHead + "Test:5, Test:52" + "." + FailedHead + "Test:999" + "."
  {
    FixtureListings();
    assert map["Test:999" := "timeout"].Keys == {"Test:999"};
  }

  /** The echo check: nothing is logged iff the server echoes the PUT back
      unchanged; a different id is the only line logged, and status and
      message are compared only when the id matches. */
  function EchoErrors(put: Put, echo: Put): (logs: seq<LogEntry>)
    ensures logs == [] <==> echo == put
    ensures echo.id != put.id ==> logs == [IdMismatch(echo.id, put.id)]
    ensures echo.id == put.id ==> forall i :: 0 <= i < |logs| ==> !logs[i].IdMismatch?
  {
    if echo.id != put.id then [IdMismatch(echo.id, put.id)]
    else
      (if echo.executionStatus != put.executionStatus
       then [StatusMismatch(put.id, echo.executionStatus, put.executionStatus)] else [])
      + (if echo.executionMessage != put.executionMessage
         then [MessageMismatch(put.id, echo.executionMessage, put.executionMessage)] else [])
  }

  // ---------------------------------------------------------------------
  // One polling cycle

  /** The status reports success exactly when every target acknowledged. */
  lemma StatusMeansAllAcked(targets: set<string>, d: AuthRequest, oracle: Command -> Reply)
    ensures StatusOf(Dispatch(targets, d, oracle)) == Successful
        <==> forall t :: t in targets ==> oracle(CommandFor(t, d)).Ack?
  {
    var o := Dispatch(targets, d, oracle);
    if o.failedMessages != map[] {
      var t :| t in o.failedMessages;
    }
  }

  /** The PUT for one request under the record id `id`: validate it,
      dispatch it, and report status and message. */
  function Respond(id: int, d: AuthRequest, oracle: Command -> Reply): (r: Result<Put>)
    ensures r.Ok? <==> ValidateRequest(d).Ok?
    ensures r.Err? ==> r.error == ValidateRequest(d).error
    ensures r.Ok? ==> r.value.id == id
    ensures r.Ok? ==>
      ((r.value.executionStatus == Successful)
         <==> (forall t :: t in ValidateRequest(d).value ==> oracle(CommandFor(t, d)).Ack?))
  {
    var targets :- ValidateRequest(d);
    var o := Dispatch(targets, d, oracle);
    StatusMeansAllAcked(targets, d, oracle);
    Ok(Put(id, StatusOf(o), ExecutionMessage(o)))
  }

  /** The PUT for one approved record: read the request, validate it,
      dispatch it, and report status and message under the record's id. */
  function Execute(rec: RestRecord, oracle: Command -> Reply): (r: Result<Put>)
    ensures r.Ok? <==> RecordToRequest(rec).Ok? && WellFormed(RecordToRequest(rec).value)
    ensures r.Ok? ==> r.value.id == rec.id
    ensures r.Ok? ==>
      var d := RecordToRequest(rec).value;
      ((r.value.executionStatus == Successful)
         <==> (forall t :: t in ValidateRequest(d).value ==> oracle(CommandFor(t, d)).Ack?))
  {
    var d :- RecordToRequest(rec);
    Respond(rec.id, d, oracle)
  }

  /** The PUTs of one cycle and the error that ended it early, if any. */
  datatype Reconciled = Reconciled(puts: seq<Put>, error: Option<Error>)

  /** The records are handled in list order with one PUT each (`step`
      gives the PUT for one record, or the error it raises); there is no
      exception handling, so the first record that raises ends the cycle. */
  function Reconcile(records: seq<RestRecord>, step: RestRecord -> Result<Put>): (rc: Reconciled)
    ensures |rc.puts| <= |records|
    ensures forall i :: 0 <= i < |rc.puts| ==> step(records[i]) == Ok(rc.puts[i])
    ensures rc.error.None? <==> |rc.puts| == |records|
    ensures rc.error.Some? ==> step(records[|rc.puts|]) == Err(rc.error.value)
  {
    if records == [] then Reconciled([], None)
    else match step(records[0])
      case Err(e) => Reconciled([], Some(e))
      case Ok(put) =>
        var rest := Reconcile(records[1..], step);
        var puts := [put] + rest.puts;
        assert forall i :: 1 <= i < |puts| ==> puts[i] == rest.puts[i - 1] && records[i] == records[1..][i - 1];
        Reconciled(puts, rest.error)
  }

  /** What one record sends the targets: each target of its request once,
      with that request's command, when the record reads as a well-formed
      request; nothing otherwise. */
  ghost predicate RecordSends(rec: RestRecord, sent: seq<Command>)
  {
    var q := RecordToRequest(rec);
    if q.Ok? && ValidateRequest(q.value).Ok? then SentOnceEach(sent, ValidateRequest(q.value).value, q.value)
    else sent == []
  }

  /** The body of the record loop for one record: build the request from
      the record, run `process_authorize_request` on it, and compute the
      PUT; any error raised on the way is returned, and `sent` is what the
      targets were sent. */
  method ProcessRecord(rec: RestRecord, oracle: Command -> Reply) returns (r: Result<Put>, sent: seq<Command>)
    ensures r == Execute(rec, oracle)
    ensures RecordSends(rec, sent)
  {
    var request := RecordToRequest(rec);
    if request.Err? {
      return Err(request.error), [];
    }
    var dispatched;
    dispatched, sent := ProcessAuthorizeRequest(request.value, oracle);
    if dispatched.Err? {
      return Err(dispatched.error), sent;
    }
    var o := dispatched.value;
    r := Ok(Put(rec.id, StatusOf(o), ExecutionMessage(o)));
  }

  /** The first |puts| records each gave their PUT. */
  ghost predicate StepsGive(recs: seq<RestRecord>, step: RestRecord -> Result<Put>, puts: seq<Put>)
  {
    |puts| <= |recs| && forall j :: 0 <= j < |puts| ==> step(recs[j]) == Ok(puts[j])
  }

  lemma StepsGiveOneMore(recs: seq<RestRecord>, step: RestRecord -> Result<Put>, puts: seq<Put>, put: Put)
    requires StepsGive(recs, step, puts) && |puts| < |recs| && step(recs[|puts|]) == Ok(put)
    ensures StepsGive(recs, step, puts + [put])
  {
  }

  /** `rel` relates each of `ys` to the element of `xs` at its position. */
  ghost predicate Pairwise<A, B>(rel: (A, B) -> bool, xs: seq<A>, ys: seq<B>)
  {
    |ys| <= |xs| && forall j :: 0 <= j < |ys| ==> rel(xs[j], ys[j])
  }

  lemma PairwiseOneMore<A, B>(rel: (A, B) -> bool, xs: seq<A>, ys: seq<B>, y: B)
    requires Pairwise(rel, xs, ys) && |ys| < |xs| && rel(xs[|ys|], y)
    ensures Pairwise(rel, xs, ys + [y])
  {
  }

  /** The first |traces| records each sent what their trace says. */
  ghost predicate TracesOf(recs: seq<RestRecord>, traces: seq<seq<Command>>)
  {
    Pairwise(RecordSends, recs, traces)
  }

  /** How far the record loop has got: the first |done| records gave the
      PUTs `done` and sent the commands `traces` shows, and the PUTs, their
      echo-check lines and the commands have been added in that order to
      what was there before. */
  ghost predicate Progress(recs: seq<RestRecord>, step: RestRecord -> Result<Put>, check: Put -> seq<LogEntry>,
                           puts0: seq<Put>, log0: seq<LogEntry>, done: seq<Put>, traces: seq<seq<Command>>,
                           puts: seq<Put>, log: seq<LogEntry>, sent: seq<Command>)
  {
    && |done| == |traces| <= |recs|
    && StepsGive(recs, step, done) && TracesOf(recs, traces)
    && puts == puts0 + done && log == log0 + Logged(done, check)
    && sent == Flatten(traces)
  }

  /** A record that gives its PUT moves the loop on by one. */
  lemma ProgressOneMore(recs: seq<RestRecord>, step: RestRecord -> Result<Put>, check: Put -> seq<LogEntry>,
                        puts0: seq<Put>, log0: seq<LogEntry>, done: seq<Put>, traces: seq<seq<Command>>,
                        puts: seq<Put>, log: seq<LogEntry>, sent: seq<Command>, put: Put, commands: seq<Command>)
    requires Progress(recs, step, check, puts0, log0, done, traces, puts, log, sent)
    requires |done| < |recs| && step(recs[|done|]) == Ok(put) && TracesOf(recs, traces + [commands])
    ensures Progress(recs, step, check, puts0, log0, done + [put], traces + [commands],
                     puts + [put], log + check(put), sent + commands)
  {
    StepsGiveOneMore(recs, step, done, put);
    FlattenStep(traces, commands);
    LoggedStep(done, put, check);
    AppendAssoc(puts0, done, [put]);
    AppendAssoc(log0, Logged(done, check), check(put));
  }

  /** ProcessRecord on record `i` of the loop: its result is the loop's
      step, and its commands extend the traces. */
  method RecordStep(recs: seq<RestRecord>, i: nat, ghost traces: seq<seq<Command>>, oracle: Command -> Reply,
                    step: RestRecord -> Result<Put>)
    returns (r: Result<Put>, sent: seq<Command>)
    requires step == ExecuteWith(oracle)
    requires TracesOf(recs, traces) && i == |traces| < |recs|
    ensures r == step(recs[i])
    ensures TracesOf(recs, traces + [sent])
  {
    r, sent := ProcessRecord(recs[i], oracle);
    PairwiseOneMore(RecordSends, recs, traces, sent);
  }

  /** The commands of several records, one after the other. */
  function Flatten(traces: seq<seq<Command>>): (sent: seq<Command>)
    ensures traces == [] ==> sent == []
  {
    if traces == [] then [] else Flatten(traces[..|traces| - 1]) + traces[|traces| - 1]
  }

  /** One more record's commands come after the earlier ones. */
  lemma FlattenStep(traces: seq<seq<Command>>, commands: seq<Command>)
    ensures Flatten(traces + [commands]) == Flatten(traces) + commands
  {
    assert (traces + [commands])[..|traces|] == traces;
  }

  /** Execute with the targets' answers fixed. */
  function ExecuteWith(oracle: Command -> Reply): RestRecord -> Result<Put>
  {
    rec => Execute(rec, oracle)
  }

  /** The PUTs of one polling cycle over approved records. */
  function Cycle(records: seq<RestRecord>, oracle: Command -> Reply): Reconciled
  {
    Reconcile(records, ExecuteWith(oracle))
  }

  /** The PUTs and the error of a cycle are fixed by the records: any
      sequence of PUTs that matches the records one by one up to the first
      failing record is the cycle's. */
  lemma {:induction false} ReconcileUnique(records: seq<RestRecord>, step: RestRecord -> Result<Put>, puts: seq<Put>)
    requires |puts| <= |records|
    requires forall i :: 0 <= i < |puts| ==> step(records[i]) == Ok(puts[i])
    requires |puts| < |records| ==> step(records[|puts|]).Err?
    ensures Reconcile(records, step).puts == puts
  {
    var rc := Reconcile(records, step);
    assert |rc.puts| == |puts|;
    forall i | 0 <= i < |puts| ensures rc.puts[i] == puts[i] {
      assert step(records[i]) == Ok(rc.puts[i]);
    }
  }

  /** The lines logged for a sequence of PUTs, `check` giving those of
      one PUT. */
  function Logged(puts: seq<Put>, check: Put -> seq<LogEntry>): seq<LogEntry>
  {
    if puts == [] then [] else Logged(puts[..|puts| - 1], check) + check(puts[|puts| - 1])
  }

  /** One more PUT logs its own lines after the earlier ones. */
  lemma LoggedStep(puts: seq<Put>, put: Put, check: Put -> seq<LogEntry>)
    ensures Logged(puts + [put], check) == Logged(puts, check) + check(put)
  {
    assert (puts + [put])[..|puts|] == puts;
  }

  lemma AppendAssoc<T>(a: seq<T>, b: seq<T>, c: seq<T>)
    ensures a + (b + c) == (a + b) + c
  {
  }

  /** The echo check of one PUT against what the server sent back. */
  function CheckEcho(echo: Put -> Put): Put -> seq<LogEntry>
  {
    put => EchoErrors(put, echo(put))
  }

  /** The lines the echo checks of a cycle log, PUT by PUT. */
  function EchoLog(puts: seq<Put>, echo: Put -> Put): seq<LogEntry>
  {
    Logged(puts, CheckEcho(echo))
  }

  /** A cycle logs nothing exactly when every PUT was echoed back as sent. */
  lemma {:induction false} EchoLogEmpty(puts: seq<Put>, echo: Put -> Put)
    ensures EchoLog(puts, echo) == [] <==> forall i :: 0 <= i < |puts| ==> echo(puts[i]) == puts[i]
  {
    if puts != [] {
      var front := puts[..|puts| - 1];
      var last := puts[|puts| - 1];
      EchoLogEmpty(front, echo);
      assert EchoLog(puts, echo) == EchoLog(front, echo) + EchoErrors(last, echo(last));
      assert forall i :: 0 <= i < |front| ==> front[i] == puts[i];
    }
  }

  /** Only the current polling task may still be running. */
  predicate OnlyCurrentRuns(tasks: seq<TaskState>, current: Future)
  {
    && (current.Handle? ==> current.id < |tasks|)
    && forall i :: 0 <= i < |tasks| && tasks[i].Running? ==> current == Handle(i)
  }

  /** The tasks still running. */
  function LiveTasks(tasks: seq<TaskState>): set<nat>
  {
    set i: nat | i < |tasks| && tasks[i].Running?
  }

  /** `future.cancel()`: a task handle becomes cancelled (taken as taking
      effect at once); cancelling the done future changes nothing. */
  function CancelTask(tasks: seq<TaskState>, current: Future): (r: seq<TaskState>)
    ensures |r| == |tasks|
    ensures current.Handle? && current.id < |tasks| ==> r[current.id] == Cancelled
    ensures forall i :: 0 <= i < |tasks| && current != Handle(i) ==> r[i] == tasks[i]
  {
    if current.Handle? && current.id < |tasks| then tasks[current.id := Cancelled] else tasks
  }

  /** `start` cancels the current task and then starts a new one; from any
      state where only the current task runs, exactly the new one is live
      afterwards. */
  lemma StartLeavesOneLive(tasks: seq<TaskState>, current: Future, sleepTime: real)
    requires OnlyCurrentRuns(tasks, current)
    ensures var tasks' := CancelTask(tasks, current) + [Running(sleepTime)];
      LiveTasks(tasks') == {|tasks|} && OnlyCurrentRuns(tasks', Handle(|tasks|))
  {
    var tasks' := CancelTask(tasks, current) + [Running(sleepTime)];
    forall i | 0 <= i < |tasks| ensures !tasks'[i].Running? {
      if tasks[i].Running? {
        assert current == Handle(i);
      }
    }
    assert |tasks| in LiveTasks(tasks');
  }

  /** `stop` leaves no task running. */
  lemma StopLeavesNoneLive(tasks: seq<TaskState>, current: Future)
    requires OnlyCurrentRuns(tasks, current)
    ensures LiveTasks(CancelTask(tasks, current)) == {}
    ensures OnlyCurrentRuns(CancelTask(tasks, current), current)
  {
    var tasks' := CancelTask(tasks, current);
    forall i | 0 <= i < |tasks| ensures !tasks'[i].Running? {
      if tasks[i].Running? {
        assert current == Handle(i);
      }
    }
  }

  /** Cancelling the initially done future is harmless. */
  lemma CancelDoneIsHarmless(tasks: seq<TaskState>)
    ensures CancelTask(tasks, Done) == tasks
  {
  }

  /** The token after `authenticate()` given the get-token reply: the
      token sent back, "" when a 200 reply has no data, and the old token
      when the reply is not 200 or its data has no token. */
  function TokenAfter(status: int, data: Option<map<string, string>>, before: string): (t: string)
    ensures TokenFrom(status, data).Ok? ==> t == data.value["token"]
    ensures status != StatusOk ==> t == before
    ensures status == StatusOk && data.Some? && "token" !in data.value ==> t == before
    ensures status == StatusOk && data.None? ==> t == ""
  {
    if TokenFrom(status, data).Ok? then TokenFrom(status, data).value
    else if status == StatusOk && data.None? then ""
    else before
  }

  /** `self.response` after `authenticate()`: the reply when its status is
      200, unchanged otherwise. */
  function ResponseAfter(status: int, data: Option<map<string, string>>, before: Response): (r: Response)
    ensures status == StatusOk ==> r == TokenReply(data)
    ensures status != StatusOk ==> r == before
  {
    if status == StatusOk then TokenReply(data) else before
  }

  /** The REST handler's state: the token, the last response, what it sent
      the server, the log lines of the echo check, and the polling task. */
  class RestAuthorizeHandler {
    var token: string
    var response: Response
    var submissions: seq<Submission>
    var puts: seq<Put>
    var log: seq<LogEntry>
    var periodicTask: Future
    var tasks: seq<TaskState>

    predicate Valid()
      reads this
    {
      OnlyCurrentRuns(tasks, periodicTask)
    }

    /** `__init__`: no token yet, the done future as polling task. */
    constructor ()
      ensures Valid()
      ensures token == "" && response == NoResponse && periodicTask == Done
      ensures submissions == [] && puts == [] && log == [] && tasks == []
    {
      token := "";
      response := NoResponse;
      submissions := [];
      puts := [];
      log := [];
      periodicTask := Done;
      tasks := [];
    }

    /** `authenticate()`, given the server's reply to the get-token POST. */
    method Authenticate(status: int, data: Option<map<string, string>>) returns (r: Result<()>)
      modifies this`token, this`response
      ensures r.Ok? <==> TokenFrom(status, data).Ok?
      ensures r.Err? ==> r.error == TokenFrom(status, data).error
      ensures response == ResponseAfter(status, data, old(response))
      ensures token == TokenAfter(status, data, old(token))
    {
      var reply := PostResponse(status, data);
      if reply.Err? {
        return Err(reply.error);
      }
      response := TokenReply(data);
      if data.None? {
        token := "";
        return Err(UnexpectedResponse);
      }
      if "token" !in data.value {
        return Err(MissingKey("token"));
      }
      token := data.value["token"];
      r := Ok(());
    }

    /** `handle_authorize_request(data)`: authenticate, then post the
      request to the server under the new token. No target is contacted. */
    method HandleAuthorizeRequest(d: AuthRequest, tokenStatus: int, tokenData: Option<map<string, string>>,
                                  postStatus: int, postBody: map<string, string>)
      returns (r: Result<()>)
      modifies this`token, this`response, this`submissions
      ensures token == TokenAfter(tokenStatus, tokenData, old(token))
      ensures TokenFrom(tokenStatus, tokenData).Err? ==>
        && r == Err(TokenFrom(tokenStatus, tokenData).error)
        && response == ResponseAfter(tokenStatus, tokenData, old(response))
        && submissions == old(submissions)
      ensures TokenFrom(tokenStatus, tokenData).Ok? ==>
        && submissions == old(submissions) + [Submission(SubmissionBody(d), token)]
        && r == (if postStatus == StatusOk then Ok(()) else Err(HttpError(postStatus)))
        && response == (if postStatus == StatusOk then SubmissionReply(postBody) else TokenReply(tokenData))
    {
      r := Authenticate(tokenStatus, tokenData);
      if r.Err? {
        return;
      }
      submissions := submissions + [Submission(SubmissionBody(d), token)];
      var reply := PostResponse(postStatus, postBody);
      if reply.Err? {
        return Err(reply.error);
      }
      response := SubmissionReply(reply.value);
      r := Ok(());
    }

    /** `process_approved_and_unprocessed_auth_requests()`, given the
      server's replies (the get-token reply, the list of approved records,
      and the echo of each PUT) and what each target answers: one PUT per
      record in list order, echo mismatches only logged, and the first
      record that raises ending the cycle with that error. `sent` is what
      the targets were sent, record by record as `traces` shows. */
    method ProcessApprovedAndUnprocessed(tokenStatus: int, tokenData: Option<map<string, string>>,
                                         records: Option<seq<RestRecord>>,
                                         oracle: Command -> Reply, echo: Put -> Put)
      returns (r: Result<()>, sent: seq<Command>, ghost traces: seq<seq<Command>>)
      modifies this`token, this`response, this`puts, this`log
      ensures token == TokenAfter(tokenStatus, tokenData, old(token))
      ensures TokenFrom(tokenStatus, tokenData).Err? ==>
        && r == Err(TokenFrom(tokenStatus, tokenData).error)
        && response == ResponseAfter(tokenStatus, tokenData, old(response))
        && puts == old(puts) && log == old(log) && sent == [] && traces == []
      ensures TokenFrom(tokenStatus, tokenData).Ok? ==> response == RecordList(records)
      ensures TokenFrom(tokenStatus, tokenData).Ok? && records.None? ==>
        r == Ok(()) && puts == old(puts) && log == old(log) && sent == [] && traces == []
      ensures TokenFrom(tokenStatus, tokenData).Ok? && records.Some? ==>
        var rc := Cycle(records.value, oracle);
        && puts == old(puts) + rc.puts
        && log == old(log) + EchoLog(rc.puts, echo)
        && r == (if rc.error.Some? then Err(rc.error.value) else Ok(()))
        && |traces| == |rc.puts|
        && TracesOf(records.value, traces)
        && sent == Flatten(traces)
    {
      r := Authenticate(tokenStatus, tokenData);
      if r.Err? {
        return r, [], [];
      }
      response := RecordList(records);
      if records.None? {
        return Ok(()), [], [];
      }
      r, sent, traces := ReconcileRecords(records.value, oracle, echo, ExecuteWith(oracle));
      assert Reconcile(records.value, ExecuteWith(oracle)) == Cycle(records.value, oracle);
    }

    /** One turn of the record loop: ProcessRecord on record `i`, then its
      PUT and echo check unless it raised. */
    method PutNext(recs: seq<RestRecord>, i: nat, ghost traces: seq<seq<Command>>, oracle: Command -> Reply,
                   step: RestRecord -> Result<Put>, check: Put -> seq<LogEntry>)
      returns (result: Result<Put>, commands: seq<Command>)
      requires step == ExecuteWith(oracle)
      requires TracesOf(recs, traces) && i == |traces| < |recs|
      modifies this`puts, this`log
      ensures result == step(recs[i])
      ensures TracesOf(recs, traces + [commands])
      ensures result.Err? ==> puts == old(puts) && log == old(log)
      ensures result.Ok? ==> puts == old(puts) + [result.value] && log == old(log) + check(result.value)
    {
      result, commands := RecordStep(recs, i, traces, oracle, step);
      if result.Ok? {
        puts := puts + [result.value];
        log := log + check(result.value);
      }
    }

    /** The record loop of one cycle: PUT and echo-check each record in
      list order, stopping at the first record that raises. Each record is
      handled by ProcessRecord; `traces` holds what each record that got
      its PUT sent the targets (the record that raises sends nothing, and
      the records after it are not reached). */
    method ReconcileRecords(recs: seq<RestRecord>, oracle: Command -> Reply, echo: Put -> Put,
                            step: RestRecord -> Result<Put>)
      returns (r: Result<()>, sent: seq<Command>, ghost traces: seq<seq<Command>>)
      requires step == ExecuteWith(oracle)
      modifies this`puts, this`log
      ensures var rc := Reconcile(recs, step);
        && puts == old(puts) + rc.puts
        && log == old(log) + EchoLog(rc.puts, echo)
        && r == (if rc.error.Some? then Err(rc.error.value) else Ok(()))
        && |traces| == |rc.puts|
        && TracesOf(recs, traces)
        && sent == Flatten(traces)
    {
      var check := CheckEcho(echo);
      ghost var done: seq<Put> := [];
      ghost var puts0, log0 := puts, log;
      sent, traces := [], [];
      var i := 0;
      while i < |recs|
        invariant i == |done| <= |recs|
        invariant Progress(recs, step, check, puts0, log0, done, traces, puts, log, sent)
      {
        ghost var puts1, log1 := puts, log;
        var result, commands := PutNext(recs, i, traces, oracle, step, check);
        if result.Err? {
          ReconcileUnique(recs, step, done);
          return Err(result.error), sent, traces;
        }
        ProgressOneMore(recs, step, check, puts0, log0, done, traces, puts1, log1, sent, result.value, commands);
        done, traces, sent := done + [result.value], traces + [commands], sent + commands;
        i := i + 1;
      }
      ReconcileUnique(recs, step, done);
      r := Ok(());
    }

    /** `start(sleep_time)`: cancel the current polling task, then create a
      new one; afterwards exactly the new task is live. */
    method Start(sleepTime: real)
      requires Valid()
      modifies this`tasks, this`periodicTask
      ensures Valid()
      ensures tasks == CancelTask(old(tasks), old(periodicTask)) + [Running(sleepTime)]
      ensures periodicTask == Handle(|old(tasks)|)
      ensures LiveTasks(tasks) == {periodicTask.id}
    {
      StartLeavesOneLive(tasks, periodicTask, sleepTime);
      tasks := CancelTask(tasks, periodicTask) + [Running(sleepTime)];
      periodicTask := Handle(|tasks| - 1);
    }

    /** `stop()`: cancel the current polling task; no task is live
      afterwards. */
    method Stop()
      requires Valid()
      modifies this`tasks
      ensures Valid()
      ensures tasks == CancelTask(old(tasks), periodicTask)
      ensures LiveTasks(tasks) == {}
    {
      StopLeavesNoneLive(tasks, periodicTask);
      tasks := CancelTask(tasks, periodicTask);
    }
  }
}
