/**
 * What both push-webhook handlers share: the request they read and the
 * gate of header, signature and branch checks they run before anything
 * else.
 */
module Webhook {
  import opened Wrappers

  /** The parts of a GitHub push commit the handlers read: the paths it removed and modified. */
  datatype Commit = Commit(removed: seq<string>, modified: seq<string>)

  /** The parts of a push event the handlers read; `after` is the pushed commit. */
  datatype PushEvent = PushEvent(ref: string, after: string, commits: seq<Commit>)

  datatype Request = Request(headers: map<string, string>, body: PushEvent)

  datatype Rejection = Rejection(status: int, error: string)

  /**
   * The deployment's settings and the helpers the gate calls: the webhook
   * secret, the branch to follow, `JSON.stringify` on the body, and the
   * HMAC check `verifySignature(secret, payload, signature)`.
   */
  datatype HookEnv = HookEnv(
    secret: string,
    branch: string,
    stringify: PushEvent -> string,
    verifySignature: (string, string, string) -> bool)

  /** A header that is absent or empty, as `!headers[name]` reads it. */
  predicate Blank(req: Request, name: string) {
    name !in req.headers || req.headers[name] == ""
  }

  /**
   * The gate: the first check that fails decides the rejection; `None`
   * lets the request through.
   */
  function Gate(env: HookEnv, req: Request): Option<Rejection> {
    var h := req.headers;
    if "content-type" !in h || h["content-type"] != "application/json" then Some(Rejection(400, "Not JSON"))
    else if "x-github-event" !in h || h["x-github-event"] != "push" then Some(Rejection(400, "Not a push event"))
    else if Blank(req, "x-github-delivery") then Some(Rejection(400, "No delivery ID"))
    else if Blank(req, "x-hub-signature-256") then Some(Rejection(401, "No signature"))
    else if !env.verifySignature(env.secret, env.stringify(req.body), h["x-hub-signature-256"])
      then Some(Rejection(401, "Invalid signature"))
    else if req.body.ref != "refs/heads/" + env.branch then Some(Rejection(400, "Not the correct branch"))
    else None
  }

  // A reference description of the gate: a list of independent checks.

  datatype Check = ContentType | Event | Delivery | SignaturePresent | SignatureValid | Branch

  /** The checks in the order the handlers run them. */
  const Order: seq<Check> := [ContentType, Event, Delivery, SignaturePresent, SignatureValid, Branch]

  /** Whether `req` passes check `c` on its own. */
  predicate Passes(env: HookEnv, req: Request, c: Check) {
    match c
    case ContentType => "content-type" in req.headers && req.headers["content-type"] == "application/json"
    case Event => "x-github-event" in req.headers && req.headers["x-github-event"] == "push"
    case Delivery => !Blank(req, "x-github-delivery")
    case SignaturePresent => !Blank(req, "x-hub-signature-256")
    case SignatureValid =>
      "x-hub-signature-256" in req.headers
      && env.verifySignature(env.secret, env.stringify(req.body), req.headers["x-hub-signature-256"])
    case Branch => req.body.ref == "refs/heads/" + env.branch
  }

  /** The reply for a failed check. */
  function RejectionOf(c: Check): (r: Rejection)
    ensures r.status == (if c == SignaturePresent || c == SignatureValid then 401 else 400)
  {
    match c
    case ContentType => Rejection(400, "Not JSON")
    case Event => Rejection(400, "Not a push event")
    case Delivery => Rejection(400, "No delivery ID")
    case SignaturePresent => Rejection(401, "No signature")
    case SignatureValid => Rejection(401, "Invalid signature")
    case Branch => Rejection(400, "Not the correct branch")
  }

  /** The first of `cs` that `req` fails. */
  function FirstFailure(env: HookEnv, req: Request, cs: seq<Check>): (r: Option<Check>)
    ensures r.Some? ==> r.value in cs && !Passes(env, req, r.value)
    ensures r.None? <==> forall i :: 0 <= i < |cs| ==> Passes(env, req, cs[i])
  {
    if cs == [] then None
    else if !Passes(env, req, cs[0]) then Some(cs[0])
    else FirstFailure(env, req, cs[1..])
  }

  /**
   * The gate rejects exactly when some check fails, with the reply of the
   * first failing check in the order content type, event, delivery ID,
   * signature present, signature valid, branch.
   */
  lemma {:induction false} GateIsFirstFailure(env: HookEnv, req: Request)
    ensures Gate(env, req) == match FirstFailure(env, req, Order)
      case None => None
      case Some(c) => Some(RejectionOf(c))
  {
    FirstFailureOfOrder(env, req);
    if !Passes(env, req, ContentType) {
      assert Gate(env, req) == Some(RejectionOf(ContentType));
    } else if !Passes(env, req, Event) {
      assert Gate(env, req) == Some(RejectionOf(Event));
    } else if !Passes(env, req, Delivery) {
      assert Gate(env, req) == Some(RejectionOf(Delivery));
    } else if !Passes(env, req, SignaturePresent) {
      assert Gate(env, req) == Some(RejectionOf(SignaturePresent));
    } else if !Passes(env, req, SignatureValid) {
      assert Gate(env, req) == Some(RejectionOf(SignatureValid));
    } else if !Passes(env, req, Branch) {
      assert Gate(env, req) == Some(RejectionOf(Branch));
    } else {
      assert Gate(env, req) == None;
    }
  }

  /** The checks of `Order` taken one after the other. */
  lemma {:induction false} FirstFailureOfOrder(env: HookEnv, req: Request)
    ensures FirstFailure(env, req, Order) ==
      if !Passes(env, req, ContentType) then Some(ContentType)
      else if !Passes(env, req, Event) then Some(Event)
      else if !Passes(env, req, Delivery) then Some(Delivery)
      else if !Passes(env, req, SignaturePresent) then Some(SignaturePresent)
      else if !Passes(env, req, SignatureValid) then Some(SignatureValid)
      else if !Passes(env, req, Branch) then Some(Branch)
      else None
  {
    var c5: seq<Check> := [Branch];
    var c4 := [SignatureValid] + c5;
    var c3 := [SignaturePresent] + c4;
    var c2 := [Delivery] + c3;
    var c1 := [Event] + c2;
    assert Order == [ContentType] + c1;
    FirstFailureCons(env, req, ContentType, c1);
    FirstFailureCons(env, req, Event, c2);
    FirstFailureCons(env, req, Delivery, c3);
    FirstFailureCons(env, req, SignaturePresent, c4);
    FirstFailureCons(env, req, SignatureValid, c5);
    FirstFailureCons(env, req, Branch, []);
    assert c5 == [Branch] + [];
  }

  lemma {:induction false} FirstFailureCons(env: HookEnv, req: Request, c: Check, cs: seq<Check>)
    ensures FirstFailure(env, req, [c] + cs) == if Passes(env, req, c) then FirstFailure(env, req, cs) else Some(c)
  {
    assert ([c] + cs)[1..] == cs;
  }

  /** A request gets through the gate exactly when it passes every check. */
  lemma {:induction false} GateLetsThrough(env: HookEnv, req: Request)
    ensures Gate(env, req).None? <==> forall c :: Passes(env, req, c)
  {
    GateIsFirstFailure(env, req);
    if FirstFailure(env, req, Order).None? {
      forall c ensures Passes(env, req, c) {
        match c
        case ContentType => assert Order[0] == c;
        case Event => assert Order[1] == c;
        case Delivery => assert Order[2] == c;
        case SignaturePresent => assert Order[3] == c;
        case SignatureValid => assert Order[4] == c;
        case Branch => assert Order[5] == c;
      }
    }
  }

  /** A request with a bad signature is refused with 401 whatever its branch. */
  lemma {:induction false} BadSignatureIs401(env: HookEnv, req: Request)
    requires Passes(env, req, ContentType) && Passes(env, req, Event) && Passes(env, req, Delivery)
    requires !Passes(env, req, SignaturePresent) || !Passes(env, req, SignatureValid)
    ensures Gate(env, req).Some? && Gate(env, req).value.status == 401
  {
  }
}
