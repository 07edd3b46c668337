/** The authentication messages a manager relays to its client while it launches a server or
    connects to one, and how the client answers each of them through its `AuthHandler`. */
module Auth {
  import opened Io

  datatype Question = Question(labelText: string, text: string)

  datatype VerificationKind = Host | UnknownKind

  /** Whether an authentication error ends the exchange (`Fatal`) or only reports (`Error`). */
  datatype AuthErrorKind = Fatal | NonFatal

  datatype Initialization = Initialization(methods: seq<string>)

  datatype Challenge = Challenge(questions: seq<Question>, options: map<string, string>)

  datatype Verification = Verification(kind: VerificationKind, text: string)

  /** `Authentication`: one message of the challenge/response exchange. */
  datatype Authentication =
    | InitializationMsg(init: Initialization)
    | StartMethod(methodName: string)
    | ChallengeMsg(challenge: Challenge)
    | VerificationMsg(verification: Verification)
    | Info(text: string)
    | Error(errorKind: AuthErrorKind, text: string)
    | Finished

  /** `AuthenticationResponse`: the client's answer to an initialization, challenge or verification. */
  datatype AuthenticationResponse =
    | InitializationResponse(methods: seq<string>)
    | ChallengeResponse(answers: seq<string>)
    | VerificationResponse(valid: bool)

  /** The caller's handler: one answer per question kind, each of which may fail. */
  datatype AuthHandler = AuthHandler(
    onInitialization: Initialization -> Result<seq<string>>,
    onChallenge: Challenge -> Result<seq<string>>,
    onVerification: Verification -> Result<bool>)

  /** What the client loop does with one message: reply to it, go on silently, or give up. */
  datatype AuthAction = Reply(response: AuthenticationResponse) | Proceed | Abort(error: IoError)

  /** The messages that ask the client something. */
  predicate Asks(msg: Authentication) {
    msg.InitializationMsg? || msg.ChallengeMsg? || msg.VerificationMsg?
  }

  predicate IsFatal(msg: Authentication) {
    msg.Error? && msg.errorKind == Fatal
  }

  /** The response of the same kind as the question it answers. */
  predicate Answers(response: AuthenticationResponse, msg: Authentication) {
    match msg
    case InitializationMsg(_) => response.InitializationResponse?
    case ChallengeMsg(_) => response.ChallengeResponse?
    case VerificationMsg(_) => response.VerificationResponse?
    case _ => false
  }

  /** The error the handler reported for a question, if it reported one. */
  function HandlerError(msg: Authentication, h: AuthHandler): Option<IoError>
    requires Asks(msg)
  {
    match msg
    case InitializationMsg(x) => if h.onInitialization(x).Err? then Some(h.onInitialization(x).error) else None
    case ChallengeMsg(x) => if h.onChallenge(x).Err? then Some(h.onChallenge(x).error) else None
    case VerificationMsg(x) => if h.onVerification(x).Err? then Some(h.onVerification(x).error) else None
  }

  /** One arm of the `match msg` in `launch` and `connect`. */
  function AuthStep(msg: Authentication, h: AuthHandler): (a: AuthAction)
    ensures a.Reply? <==> Asks(msg) && HandlerError(msg, h).None?
    ensures a.Reply? ==> Answers(a.response, msg)
    // the reply carries exactly the handler's answer
    ensures a.Reply? && msg.InitializationMsg? ==>
      a.response == InitializationResponse(h.onInitialization(msg.init).value)
    ensures a.Reply? && msg.ChallengeMsg? ==> a.response == ChallengeResponse(h.onChallenge(msg.challenge).value)
    ensures a.Reply? && msg.VerificationMsg? ==>
      a.response == VerificationResponse(h.onVerification(msg.verification).value)
    ensures Asks(msg) && HandlerError(msg, h).Some? ==> a == Abort(HandlerError(msg, h).value)
    ensures a.Proceed? <==> !Asks(msg) && !IsFatal(msg)
    ensures IsFatal(msg) ==> a == Abort(IoError(PermissionDenied, msg.text))
  {
    match msg
    case InitializationMsg(x) =>
      (match h.onInitialization(x)
       case Ok(methods) => Reply(InitializationResponse(methods))
       case Err(e) => Abort(e))
    case StartMethod(_) => Proceed
    case ChallengeMsg(x) =>
      (match h.onChallenge(x)
       case Ok(answers) => Reply(ChallengeResponse(answers))
       case Err(e) => Abort(e))
    case VerificationMsg(x) =>
      (match h.onVerification(x)
       case Ok(valid) => Reply(VerificationResponse(valid))
       case Err(e) => Abort(e))
    case Info(_) => Proceed
    case Error(kind, text) => if kind == Fatal then Abort(IoError(PermissionDenied, text)) else Proceed
    case Finished => Proceed
  }
}
