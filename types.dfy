/** Values shared by every part of the authorization-request engine: the
    request itself, the errors the engine raises, the per-target command and
    its reply, and the outcome of a fan-out. */
module AuthTypes {

  /** Python exceptions raised by the engine, one constructor per raise site. */
  datatype Error =
    | InvalidCsc(csc: string)            // ValueError from check_csc
    | InvalidUserHost(userHost: string)  // ValueError from check_user_host
    | NoCscs                             // salobj.ExpectedError: empty target set
    | PartialFailure(failedMessages: map<string, string>, succeeded: set<string>)
                                         // RuntimeError of the auto handler
    | LegacyPartialFailure(failed: set<string>, succeeded: set<string>)
                                         // RuntimeError of the older CSC
    | HttpError(status: int)             // RuntimeError: POST answered with a status other than 200
    | UnexpectedResponse                 // RuntimeError: token reply without "data"
    | MissingKey(key: string)            // KeyError while reading a server reply
    | MissingAttribute(name: string)     // AttributeError
    | NotImplemented                     // NotImplementedError from configure
    | NotEnabled                         // salobj.ExpectedError from assert_enabled

  datatype Option<+T> = None | Some(value: T)

  /** Result of an operation that may raise. */
  datatype Result<+T> = Ok(value: T) | Err(error: Error) {
    predicate IsFailure() { Err? }

    function PropagateFailure<U>(): Result<U>
      requires Err?
    {
      Err(error)
    }

    function Extract(): T
      requires Ok?
    {
      value
    }
  }

  /** The four strings of a requestAuthorization command (AuthRequestData). */
  datatype AuthRequest = AuthRequest(
    cscsToChange: string,
    authorizedUsers: string,
    nonAuthorizedCscs: string,
    privateIdentity: string)

  /** One setAuthList command sent to one target CSC. */
  datatype Command = SetAuthList(target: string, authorizedUsers: string, nonAuthorizedCscs: string)

  /** What a target answers: an acknowledgement, or an AckError with its
      message (a timeout is one more AckError). */
  datatype Reply = Ack | AckError(message: string)

  /** The (csc_failed_messages, cscs_succeeded) pair of one fan-out. */
  datatype Outcome = Outcome(failedMessages: map<string, string>, succeeded: set<string>)

  /** The set of targets named by a sequence of sent commands. */
  function TargetsOf(sent: seq<Command>): set<string>
  {
    set i | 0 <= i < |sent| :: sent[i].target
  }
}
