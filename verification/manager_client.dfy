/** The client side of the manager protocol: how `launch` and `connect` consume the stream of
    manager responses (answering authentication questions along the way), and how `capabilities`,
    `info`, `kill` and `list` turn their single response into a result. The mailbox is the
    sequence of responses in arrival order; the requests the loop fires are returned in order. */
module ManagerClient {
  import opened Io
  import Auth

  type ConnectionId = nat

  type Destination = string

  datatype ConnectionInfo = ConnectionInfo(id: ConnectionId, destination: Destination, options: map<string, string>)

  /** `ManagerResponse`: what the manager sends back on a request's mailbox. */
  datatype ManagerResponse =
    | Killed
    | Capabilities(supported: set<string>)
    | Connected(id: ConnectionId)
    | Launched(destination: Destination)
    | Authenticate(id: nat, msg: Auth.Authentication)
    | Error(description: string)
    | Info(info: ConnectionInfo)
    | List(list: map<ConnectionId, Destination>)
    | ChannelOpened(id: nat)
    | ChannelClosed(id: nat)

  /** `ManagerRequest::Authenticate`, the one request the response loop fires. */
  datatype AuthenticateRequest = AuthenticateRequest(id: nat, msg: Auth.AuthenticationResponse)

  const UnexpectedResponse: string := "Got unexpected response"
  const MissingConfirmation: string := "Missing connection confirmation"

  /** The payload a call is waiting for, picked out of a response. */
  function ConnectedId(res: ManagerResponse): Option<ConnectionId> {
    if res.Connected? then Some(res.id) else None
  }

  function LaunchedDestination(res: ManagerResponse): Option<Destination> {
    if res.Launched? then Some(res.destination) else None
  }

  function CapabilitiesPayload(res: ManagerResponse): Option<set<string>> {
    if res.Capabilities? then Some(res.supported) else None
  }

  function InfoPayload(res: ManagerResponse): Option<ConnectionInfo> {
    if res.Info? then Some(res.info) else None
  }

  function KilledPayload(res: ManagerResponse): Option<()> {
    if res.Killed? then Some(()) else None
  }

  function ListPayload(res: ManagerResponse): Option<map<ConnectionId, Destination>> {
    if res.List? then Some(res.list) else None
  }

  /** The final `match res.payload` of every manager call: the awaited payload, the manager's
      own error, or any other response as invalid data. */
  function Expect<T>(res: ManagerResponse, accept: ManagerResponse -> Option<T>): (r: Result<T>)
    ensures r.Ok? <==> accept(res).Some?
    ensures r.Ok? ==> r.value == accept(res).value
    ensures r.Err? && res.Error? ==> r.error == IoError(Other, res.description)
    ensures r.Err? && !res.Error? ==> r.error.kind == InvalidData
  {
    match accept(res)
    case Some(v) => Ok(v)
    case None =>
      if res.Error? then Err(IoError(Other, res.description))
      else Err(IoError(InvalidData, UnexpectedResponse))
  }

  /** `capabilities`: the `Capabilities` payload, or the error the response stands for. */
  function ExpectCapabilities(res: ManagerResponse): (r: Result<set<string>>)
    ensures r.Ok? <==> res.Capabilities?
    ensures r.Ok? ==> r.value == res.supported
    ensures res.Error? ==> r == Err(IoError(Other, res.description))
    ensures !res.Capabilities? && !res.Error? ==> r.Err? && r.error.kind == InvalidData
  {
    Expect(res, CapabilitiesPayload)
  }

  /** `info`: exactly the `Info` payload. */
  function ExpectInfo(res: ManagerResponse): (r: Result<ConnectionInfo>)
    ensures r.Ok? <==> res.Info?
    ensures r.Ok? ==> r.value == res.info
    ensures res.Error? ==> r == Err(IoError(Other, res.description))
    ensures !res.Info? && !res.Error? ==> r.Err? && r.error.kind == InvalidData
  {
    Expect(res, InfoPayload)
  }

  /** `kill`: succeeds on `Killed` and on nothing else. */
  function ExpectKilled(res: ManagerResponse): (r: Result<()>)
    ensures r.Ok? <==> res.Killed?
    ensures res.Error? ==> r == Err(IoError(Other, res.description))
    ensures !res.Killed? && !res.Error? ==> r.Err? && r.error.kind == InvalidData
  {
    Expect(res, KilledPayload)
  }

  /** `list`: exactly the `List` payload. */
  function ExpectList(res: ManagerResponse): (r: Result<map<ConnectionId, Destination>>)
    ensures r.Ok? <==> res.List?
    ensures r.Ok? ==> r.value == res.list
    ensures res.Error? ==> r == Err(IoError(Other, res.description))
    ensures !res.List? && !res.Error? ==> r.Err? && r.error.kind == InvalidData
  {
    Expect(res, ListPayload)
  }

  /** How one response moves a `launch` or `connect` call on: it fires zero or one requests and
      continues, or it ends the call with a result. */
  datatype Step<T> = Continue(fired: seq<AuthenticateRequest>) | Stop(result: Result<T>)

  function StepOf<T>(res: ManagerResponse, h: Auth.AuthHandler, accept: ManagerResponse -> Option<T>): (s: Step<T>)
    ensures !res.Authenticate? ==> s == Stop(Expect(res, accept))
    ensures res.Authenticate? && Auth.Asks(res.msg) ==> (s.Continue? <==> Auth.HandlerError(res.msg, h).None?)
    ensures res.Authenticate? && Auth.Asks(res.msg) && s.Continue? ==>
      |s.fired| == 1 && s.fired[0].id == res.id && Auth.Answers(s.fired[0].msg, res.msg) &&
      s.fired[0].msg == Auth.AuthStep(res.msg, h).response
    ensures res.Authenticate? && Auth.Asks(res.msg) && Auth.HandlerError(res.msg, h).Some? ==>
      s == Stop(Err(Auth.HandlerError(res.msg, h).value))
    ensures res.Authenticate? && !Auth.Asks(res.msg) && !Auth.IsFatal(res.msg) ==> s == Continue([])
    ensures res.Authenticate? && Auth.IsFatal(res.msg) ==> s == Stop(Err(IoError(PermissionDenied, res.msg.text)))
  {
    if res.Authenticate? then
      match Auth.AuthStep(res.msg, h)
      case Reply(answer) => Continue([AuthenticateRequest(res.id, answer)])
      case Proceed => Continue([])
      case Abort(e) => Stop(Err(e))
    else Stop(Expect(res, accept))
  }

  /** The outcome of a call together with every request it fired, in order. */
  datatype Exchange<T> = Exchange(result: Result<T>, fired: seq<AuthenticateRequest>)

  /** The `while let Some(res) = mailbox.next()` loop as a fold over the mailbox. */
  function Drive<T>(mailbox: seq<ManagerResponse>, h: Auth.AuthHandler, accept: ManagerResponse -> Option<T>): (e: Exchange<T>)
    ensures |e.fired| <= CountAsks(mailbox)
    ensures e.result.Ok? ==> exists j :: 0 <= j < |mailbox| && Expect(mailbox[j], accept) == e.result
    decreases |mailbox|
  {
    if mailbox == [] then Exchange(Err(IoError(UnexpectedEof, MissingConfirmation)), [])
    else
      match StepOf(mailbox[0], h, accept)
      case Stop(r) => Exchange(r, [])
      case Continue(q) =>
        var rest := Drive(mailbox[1..], h, accept);
        Exchange(rest.result, q + rest.fired)
  }

  predicate Continues<T>(res: ManagerResponse, h: Auth.AuthHandler, accept: ManagerResponse -> Option<T>) {
    StepOf(res, h, accept).Continue?
  }

  /** Every response of `p` is an authentication message the loop gets past. */
  predicate AllContinue<T>(p: seq<ManagerResponse>, h: Auth.AuthHandler, accept: ManagerResponse -> Option<T>) {
    forall j :: 0 <= j < |p| ==> Continues(p[j], h, accept)
  }

  /** The requests fired while the loop gets past `p`. */
  function Fired<T>(p: seq<ManagerResponse>, h: Auth.AuthHandler, accept: ManagerResponse -> Option<T>): seq<AuthenticateRequest>
    requires AllContinue(p, h, accept)
  {
    if p == [] then [] else StepOf(p[0], h, accept).fired + Fired(p[1..], h, accept)
  }

  /** Number of messages in `p` that ask the client something. */
  function CountAsks(p: seq<ManagerResponse>): nat {
    if p == [] then 0 else (if p[0].Authenticate? && Auth.Asks(p[0].msg) then 1 else 0) + CountAsks(p[1..])
  }

  /** The awaiting loop shared by `launch` and `connect`: it answers authentication questions
      until a response ends the call or the mailbox runs dry. */
  method Await<T>(mailbox: seq<ManagerResponse>, h: Auth.AuthHandler, accept: ManagerResponse -> Option<T>)
    returns (r: Result<T>, fired: seq<AuthenticateRequest>)
    ensures Exchange(r, fired) == Drive(mailbox, h, accept)
  {
    fired := [];
    var i := 0;
    while i < |mailbox|
      invariant 0 <= i <= |mailbox|
      invariant Drive(mailbox, h, accept) == Exchange(Drive(mailbox[i..], h, accept).result, fired + Drive(mailbox[i..], h, accept).fired)
    {
      assert mailbox[i..][0] == mailbox[i] && mailbox[i..][1..] == mailbox[i + 1..];
      var res := mailbox[i];
      if res.Authenticate? {
        match Auth.AuthStep(res.msg, h)
        case Reply(answer) =>
          fired := fired + [AuthenticateRequest(res.id, answer)];
        case Proceed =>
        case Abort(e) =>
          r := Err(e);
          return;
      } else {
        r := Expect(res, accept);
        return;
      }
      i := i + 1;
    }
    r := Err(IoError(UnexpectedEof, MissingConfirmation));
  }

  /** `launch`: the destination of the spawned server, with the authentication replies fired. */
  method Launch(mailbox: seq<ManagerResponse>, h: Auth.AuthHandler) returns (r: Result<Destination>, fired: seq<AuthenticateRequest>)
    ensures Exchange(r, fired) == Drive(mailbox, h, LaunchedDestination)
  {
    r, fired := Await(mailbox, h, LaunchedDestination);
  }

  /** `connect`: the id of the new connection, with the authentication replies fired. */
  method Connect(mailbox: seq<ManagerResponse>, h: Auth.AuthHandler) returns (r: Result<ConnectionId>, fired: seq<AuthenticateRequest>)
    ensures Exchange(r, fired) == Drive(mailbox, h, ConnectedId)
  {
    r, fired := Await(mailbox, h, ConnectedId);
  }

  /** Authentication messages the loop gets past only add their replies: the rest of the
      conversation decides the outcome. */
  lemma {:induction false} DriveSplit<T>(p: seq<ManagerResponse>, s: seq<ManagerResponse>, h: Auth.AuthHandler, accept: ManagerResponse -> Option<T>)
    requires AllContinue(p, h, accept)
    ensures Drive(p + s, h, accept) == Exchange(Drive(s, h, accept).result, Fired(p, h, accept) + Drive(s, h, accept).fired)
  {
    if p != [] {
      assert (p + s)[0] == p[0] && (p + s)[1..] == p[1..] + s;
      assert Continues(p[0], h, accept);
      AllContinueTail(p, h, accept);
      DriveSplit(p[1..], s, h, accept);
      var q := StepOf(p[0], h, accept).fired;
      assert StepOf((p + s)[0], h, accept) == Continue(q);
      assert Fired(p, h, accept) == q + Fired(p[1..], h, accept);
      assert q + (Fired(p[1..], h, accept) + Drive(s, h, accept).fired)
          == (q + Fired(p[1..], h, accept)) + Drive(s, h, accept).fired;
    } else {
      assert p + s == s;
      assert Fired(p, h, accept) + Drive(s, h, accept).fired == Drive(s, h, accept).fired;
    }
  }

  lemma AllContinueTail<T>(p: seq<ManagerResponse>, h: Auth.AuthHandler, accept: ManagerResponse -> Option<T>)
    requires AllContinue(p, h, accept) && p != []
    ensures AllContinue(p[1..], h, accept)
  {
    forall j | 0 <= j < |p| - 1 ensures Continues(p[1..][j], h, accept) {
      assert p[1..][j] == p[j + 1];
    }
  }

  /** The first response the loop does not get past decides the call, and nothing after it is read. */
  lemma FirstStopDecides<T>(p: seq<ManagerResponse>, res: ManagerResponse, s: seq<ManagerResponse>, h: Auth.AuthHandler, accept: ManagerResponse -> Option<T>)
    requires AllContinue(p, h, accept) && !Continues(res, h, accept)
    ensures Drive(p + [res] + s, h, accept) == Exchange(StepOf(res, h, accept).result, Fired(p, h, accept))
    ensures !res.Authenticate? ==> Drive(p + [res] + s, h, accept).result == Expect(res, accept)
  {
    assert p + [res] + s == p + ([res] + s);
    DriveSplit(p, [res] + s, h, accept);
    assert ([res] + s)[0] == res;
  }

  /** A mailbox that ends while the loop is still authenticating fails the call with `UnexpectedEof`. */
  lemma DriveEof<T>(p: seq<ManagerResponse>, h: Auth.AuthHandler, accept: ManagerResponse -> Option<T>)
    requires AllContinue(p, h, accept)
    ensures Drive(p, h, accept) == Exchange(Err(IoError(UnexpectedEof, MissingConfirmation)), Fired(p, h, accept))
  {
    assert p + [] == p;
    DriveSplit(p, [], h, accept);
  }

  /** Exactly one request is fired per question the loop gets past. */
  lemma {:induction false} FiredCount<T>(p: seq<ManagerResponse>, h: Auth.AuthHandler, accept: ManagerResponse -> Option<T>)
    requires AllContinue(p, h, accept)
    ensures |Fired(p, h, accept)| == CountAsks(p)
  {
    if p != [] {
      assert Continues(p[0], h, accept);
      AllContinueTail(p, h, accept);
      FiredCount(p[1..], h, accept);
    }
  }

  /** Every fired request carries the id of an authentication message it answers. */
  lemma {:induction false} FiredAnswers<T>(p: seq<ManagerResponse>, h: Auth.AuthHandler, accept: ManagerResponse -> Option<T>)
    requires AllContinue(p, h, accept)
    ensures forall q :: q in Fired(p, h, accept) ==>
      exists j :: 0 <= j < |p| && p[j].Authenticate? && p[j].id == q.id && Auth.Answers(q.msg, p[j].msg)
  {
    if p != [] {
      AllContinueTail(p, h, accept);
      FiredAnswers(p[1..], h, accept);
      forall q | q in Fired(p, h, accept)
        ensures exists j :: 0 <= j < |p| && p[j].Authenticate? && p[j].id == q.id && Auth.Answers(q.msg, p[j].msg)
      {
        if q in StepOf(p[0], h, accept).fired {
          assert p[0].Authenticate? && Auth.Asks(p[0].msg);
        } else {
          var j :| 0 <= j < |p[1..]| && p[1..][j].Authenticate? && p[1..][j].id == q.id && Auth.Answers(q.msg, p[1..][j].msg);
          assert p[j + 1] == p[1..][j];
        }
      }
    }
  }

  /** The call succeeds with `x` exactly when, after authentication messages it gets past, it
      meets a non-authentication response carrying the awaited payload `x`. */
  lemma {:induction false} DriveOkIff<T>(m: seq<ManagerResponse>, h: Auth.AuthHandler, accept: ManagerResponse -> Option<T>, x: T)
    ensures Drive(m, h, accept).result == Ok(x) <==>
      exists k :: 0 <= k < |m| && AllContinue(m[..k], h, accept) && !m[k].Authenticate? && accept(m[k]) == Some(x)
  {
    if m == [] {
    } else if Continues(m[0], h, accept) {
      DriveOkIff(m[1..], h, accept, x);
      if Drive(m, h, accept).result == Ok(x) {
        var k :| 0 <= k < |m[1..]| && AllContinue(m[1..][..k], h, accept) && !m[1..][k].Authenticate? && accept(m[1..][k]) == Some(x);
        assert m[k + 1] == m[1..][k];
        assert AllContinue(m[..k + 1], h, accept) by {
          forall j | 0 <= j < k + 1 ensures Continues(m[j], h, accept) {
            if j > 0 { assert m[j] == m[1..][..k][j - 1]; }
          }
        }
      }
      if exists k :: 0 <= k < |m| && AllContinue(m[..k], h, accept) && !m[k].Authenticate? && accept(m[k]) == Some(x) {
        var k :| 0 <= k < |m| && AllContinue(m[..k], h, accept) && !m[k].Authenticate? && accept(m[k]) == Some(x);
        assert k != 0;
        assert m[1..][k - 1] == m[k];
        var t := m[1..][..k - 1];
        forall j | 0 <= j < |t| ensures Continues(t[j], h, accept) {
          assert t[j] == m[..k][j + 1];
        }
      }
    } else {
      if exists k :: 0 <= k < |m| && AllContinue(m[..k], h, accept) && !m[k].Authenticate? && accept(m[k]) == Some(x) {
        var k :| 0 <= k < |m| && AllContinue(m[..k], h, accept) && !m[k].Authenticate? && accept(m[k]) == Some(x);
      }
      if Drive(m, h, accept).result == Ok(x) {
        assert AllContinue(m[..0], h, accept);
      }
    }
  }

  /** `connect` returns `Ok(id)` exactly when it meets `Connected { id }` after authentication
      messages it gets past, and returns that id unchanged. */
  lemma ConnectOkIff(m: seq<ManagerResponse>, h: Auth.AuthHandler, id: ConnectionId)
    ensures Drive(m, h, ConnectedId).result == Ok(id) <==>
      exists k :: 0 <= k < |m| && AllContinue(m[..k], h, ConnectedId) && m[k] == Connected(id)
  {
    DriveOkIff(m, h, ConnectedId, id);
  }

  /** `launch` returns the destination carried by the first `Launched` response it reaches. */
  lemma LaunchOkIff(m: seq<ManagerResponse>, h: Auth.AuthHandler, d: Destination)
    ensures Drive(m, h, LaunchedDestination).result == Ok(d) <==>
      exists k :: 0 <= k < |m| && AllContinue(m[..k], h, LaunchedDestination) && m[k] == Launched(d)
  {
    DriveOkIff(m, h, LaunchedDestination, d);
  }
}
