/** One ssh-agent connection (ssh_session.rs) under its policy (ssh_policy.rs).

    The fingerprint of a host key is a parameter. What the backend does while one message is
    handled (the keys it advertises, whether the phone signs, whether the raw signature
    encodes) is an input of that step. */
module SshSession {
  import opened Common
  import opened SshFraming
  import opened SshAgent

  type Fingerprint = Blob -> string

  datatype Prompt = Prompt(user: Blob, destination: Option<string>, forwarded: bool, firstTime: bool)

  datatype Decision = Ask(prompt: Prompt) | Refuse

  datatype Rules = Rules(known: set<string>, forwardable: set<string>, restrictedTo: set<string>)

  function Destination(f: Fingerprint, bind: Option<SessionBind>): Option<string> {
    if bind.Some? then Some(f(bind.value.hostKey)) else None
  }

  function Decide(f: Fingerprint, rules: Rules, context: Option<SignContext>, bind: Option<SessionBind>): Decision {
    if context.None? || context.value.user == [] then Refuse
    else
      var destination := Destination(f, bind);
      var forwarded := bind.Some? && bind.value.forwarding;
      if destination.Some? && rules.restrictedTo != {} && destination.value !in rules.restrictedTo then Refuse
      else if destination.Some? && forwarded && destination.value !in rules.forwardable then Refuse
      else if destination.None? && rules.restrictedTo != {} then Refuse
      else if destination.None? && forwarded then Refuse
      else Ask(Prompt(context.value.user, destination, forwarded,
                      destination.None? || destination.value !in rules.known))
  }

  /** What the backend does during one message. */
  datatype Backend = Backend(identities: seq<Key>, raw: Option<Blob>, encoded: Option<Blob>)

  predicate Advertised(keys: seq<Key>, blob: Blob) {
    exists i :: 0 <= i < |keys| && keys[i].blob == blob
  }

  class SshPolicy {
    var known: set<string>
    var forwardable: set<string>
    var restrictedTo: set<string>

    constructor ()
      ensures State() == Rules({}, {}, {})
    {
      known, forwardable, restrictedTo := {}, {}, {};
    }

    function State(): Rules
      reads this
    {
      Rules(known, forwardable, restrictedTo)
    }

    method RestrictTo(fingerprints: set<string>)
      modifies this
      ensures State() == old(State()).(restrictedTo := fingerprints)
    {
      restrictedTo := fingerprints;
    }

    method AllowForwardingTo(fingerprint: string)
      modifies this
      ensures State() == old(State()).(forwardable := old(forwardable) + {fingerprint})
    {
      forwardable := forwardable + {fingerprint};
    }

    method Remember(fingerprint: string)
      modifies this
      ensures State() == old(State()).(known := old(known) + {fingerprint})
    {
      known := known + {fingerprint};
    }
  }

  /** The connection's state and its reply to one message. */
  datatype Handled = Handled(rules: Rules, bind: Option<SessionBind>, reply: Blob)

  function Remembering(rules: Rules, destination: Option<string>): Rules {
    if destination.Some? then rules.(known := rules.known + {destination.value}) else rules
  }

  function HandleSign(f: Fingerprint, rules: Rules, bind: Option<SessionBind>, r: SignRequest, b: Backend): Handled {
    match Decide(f, rules, Describe(r.data), bind)
    case Refuse => Handled(rules, bind, Failure())
    case Ask(prompt) =>
      if !Advertised(b.identities, r.keyBlob) || b.raw.None? || b.encoded.None? then Handled(rules, bind, Failure())
      else Handled(Remembering(rules, prompt.destination), bind, SignResponse(b.encoded.value))
  }

  function HandleMessage(f: Fingerprint, rules: Rules, bind: Option<SessionBind>, body: Blob, b: Backend): Handled {
    match Parse(body)
    case Identities => Handled(rules, bind, Framed(IdentitiesBody(b.identities)))
    case Bind(named) => Handled(rules, Some(named), Success())
    case Sign(r) => HandleSign(f, rules, bind, r, b)
    case Unsupported => Handled(rules, bind, Failure())
  }

  class SshSession {
    const fingerprint: Fingerprint
    const policy: SshPolicy
    var bind: Option<SessionBind>

    constructor (fingerprint: Fingerprint, policy: SshPolicy)
      ensures this.fingerprint == fingerprint && this.policy == policy && bind == None
    {
      this.fingerprint, this.policy := fingerprint, policy;
      bind := None;
    }

    method Handle(body: Blob, backend: Backend) returns (reply: Blob)
      modifies this, policy
      ensures Handled(policy.State(), bind, reply)
           == HandleMessage(fingerprint, old(policy.State()), old(bind), body, backend)
    {
      hide Parse, Describe, Decide, SignResponse, Failure, Success, Framed, IdentitiesBody;
      match Parse(body) {
        case Identities =>
          reply := IdentitiesAnswer(backend.identities);
        case Bind(named) =>
          bind := Some(named);
          reply := Success();
        case Sign(request) =>
          var context := Describe(request.data);
          var decision := Decide(fingerprint, policy.State(), context, bind);
          if decision.Refuse? {
            return Failure();
          }
          var prompt := decision.prompt;
          var advertised := false;
          for i := 0 to |backend.identities|
            invariant advertised <==> exists j :: 0 <= j < i && backend.identities[j].blob == request.keyBlob
          {
            advertised := advertised || backend.identities[i].blob == request.keyBlob;
          }
          if !advertised {
            return Failure();
          }
          if backend.raw.None? {
            return Failure();
          }
          if backend.encoded.None? {
            return Failure();
          }
          if prompt.destination.Some? {
            policy.Remember(prompt.destination.value);
          }
          reply := SignResponse(backend.encoded.value);
        case Unsupported =>
          reply := Failure();
      }
    }
  }

  // ---- Runs ----

  datatype Message = Message(body: Blob, backend: Backend)

  /** The connection before message `k`. */
  function Before(f: Fingerprint, rules: Rules, messages: seq<Message>, k: nat): (Rules, Option<SessionBind>)
    requires k <= |messages|
  {
    if k == 0 then (rules, None)
    else
      var (r, b) := Before(f, rules, messages, k - 1);
      var h := HandleMessage(f, r, b, messages[k - 1].body, messages[k - 1].backend);
      (h.rules, h.bind)
  }

  function ReplyTo(f: Fingerprint, rules: Rules, messages: seq<Message>, k: nat): Blob
    requires k < |messages|
  {
    var (r, b) := Before(f, rules, messages, k);
    HandleMessage(f, r, b, messages[k].body, messages[k].backend).reply
  }

  /** A client can tell a sign response by its fifth byte. */
  predicate IsSignResponse(reply: Blob) {
    |reply| >= 5 && reply[4] == SSH_AGENT_SIGN_RESPONSE
  }

  predicate Signed(f: Fingerprint, rules: Rules, messages: seq<Message>, k: nat)
    requires k < |messages|
  {
    IsSignResponse(ReplyTo(f, rules, messages, k))
  }

  /** The bind the latest session-bind message before `k` asked for, whatever else was sent. */
  function LatestBind(messages: seq<Message>, k: nat): Option<SessionBind>
    requires k <= |messages|
  {
    if k == 0 then None
    else if Parse(messages[k - 1].body).Bind? then Some(Parse(messages[k - 1].body).bind)
    else LatestBind(messages, k - 1)
  }

  lemma {:induction false} BindIsLatest(f: Fingerprint, rules: Rules, messages: seq<Message>, k: nat)
    requires k <= |messages|
    ensures Before(f, rules, messages, k).1 == LatestBind(messages, k)
  {
    hide Parse, Decide, Describe;
    if k > 0 {
      BindIsLatest(f, rules, messages, k - 1);
    }
  }

  lemma RepliesDiffer(keys: seq<Key>, signature: Blob)
    ensures IsSignResponse(SignResponse(signature))
    ensures !IsSignResponse(Failure()) && !IsSignResponse(Success()) && !IsSignResponse(Framed(IdentitiesBody(keys)))
  {
  }

  /** Everything that has to have happened for message `k` to be answered with a signature. */
  predicate EarnedSignature(f: Fingerprint, rules: Rules, messages: seq<Message>, k: nat)
    requires k < |messages|
  {
    var request, b := Parse(messages[k].body), messages[k].backend;
    && request.Sign?
    && Decide(f, Before(f, rules, messages, k).0, Describe(request.request.data), LatestBind(messages, k)).Ask?
    && Advertised(b.identities, request.request.keyBlob)
    && b.raw.Some? && b.encoded.Some?
  }

  /** A sign response is returned exactly in a step where the request was a readable login, the
      policy asked under the latest session bind, the key was one advertised, and the backend
      signed; and then it carries that signature. */
  lemma {:induction false} SignedIff(f: Fingerprint, rules: Rules, messages: seq<Message>, k: nat)
    requires k < |messages|
    ensures Signed(f, rules, messages, k) <==> EarnedSignature(f, rules, messages, k)
    ensures Signed(f, rules, messages, k)
            ==> ReplyTo(f, rules, messages, k) == SignResponse(messages[k].backend.encoded.value)
  {
    hide Parse, Decide, Describe, SignResponse, Failure, Success, Framed, IsSignResponse;
    BindIsLatest(f, rules, messages, k);
    var b := messages[k].backend;
    RepliesDiffer(b.identities, if b.encoded.Some? then b.encoded.value else []);
  }

  /** What a client reads of the reply to message `k`: the signature the backend encoded when it was
      earned, an acknowledgement of a session bind, the identities when they were asked for, and one
      and the same refusal in every other case. */
  lemma {:induction false} RepliesReadBack(f: Fingerprint, rules: Rules, messages: seq<Message>, k: nat)
    requires k < |messages|
    ensures var request, b, reply := Parse(messages[k].body), messages[k].backend, ReplyTo(f, rules, messages, k);
      match request
      case Identities => |IdentitiesBody(b.identities)| < 0x1_0000_0000 ==> ReadIdentities(reply) == Some(b.identities)
      case Bind(_) => ReadAnswer(reply) == Answer(6, [])
      case Unsupported => ReadAnswer(reply) == Answer(5, [])
      case Sign(_) =>
        if !EarnedSignature(f, rules, messages, k) then ReadAnswer(reply) == Answer(5, [])
        else
          |b.encoded.value| + 5 < 0x1_0000_0000 ==>
            && ReadAnswer(reply).Answer? && ReadAnswer(reply).kind == 14
            && ReadString(ReadAnswer(reply).payload) == Read(b.encoded.value, [])
  {
    hide Parse, Decide, Describe, SignResponse, Failure, Success, Framed, IdentitiesBody, ReadString, ReadAnswer,
         ReadIdentities;
    BindIsLatest(f, rules, messages, k);
    ShortAnswersReadBack();
    var b := messages[k].backend;
    match Parse(messages[k].body) {
      case Identities =>
        if |IdentitiesBody(b.identities)| < 0x1_0000_0000 {
          IdentitiesReadBack(b.identities);
        }
      case Sign(_) =>
        if b.encoded.Some? && |b.encoded.value| + 5 < 0x1_0000_0000 {
          SignatureReadsBack(b.encoded.value);
        }
      case _ =>
    }
  }

  /** The policy asks exactly when the request says who logs in, and the latest bind meets the
      restriction and the forwarding rule it started with. */
  lemma {:induction false} AsksIff(f: Fingerprint, rules: Rules, messages: seq<Message>, k: nat,
                                   context: Option<SignContext>)
    requires k <= |messages|
    ensures var bind := LatestBind(messages, k);
      Decide(f, Before(f, rules, messages, k).0, context, bind).Ask?
      <==> && context.Some? && context.value.user != []
           && (rules.restrictedTo == {} || (bind.Some? && f(bind.value.hostKey) in rules.restrictedTo))
           && (bind.Some? && bind.value.forwarding ==> f(bind.value.hostKey) in rules.forwardable)
  {
    hide HandleMessage, Parse, Describe;
    OnlyKnownChanges(f, rules, messages, k);
  }

  /** The restrictions the policy started with hold for every signature of the run. */
  lemma {:induction false} SignaturesRespectRules(f: Fingerprint, rules: Rules, messages: seq<Message>, k: nat)
    requires k < |messages| && Signed(f, rules, messages, k)
    ensures var bind := LatestBind(messages, k);
      && (rules.restrictedTo != {} ==> bind.Some? && f(bind.value.hostKey) in rules.restrictedTo)
      && (bind.Some? && bind.value.forwarding ==> f(bind.value.hostKey) in rules.forwardable)
  {
    hide Parse, Describe, Signed;
    SignedIff(f, rules, messages, k);
    OnlyKnownChanges(f, rules, messages, k);
  }

  lemma {:induction false} OnlyKnownChanges(f: Fingerprint, rules: Rules, messages: seq<Message>, k: nat)
    requires k <= |messages|
    ensures var now := Before(f, rules, messages, k).0;
      now.forwardable == rules.forwardable && now.restrictedTo == rules.restrictedTo
  {
    hide Parse, Decide, Describe;
    if k > 0 {
      OnlyKnownChanges(f, rules, messages, k - 1);
    }
  }

  /** An earlier message signed for this destination. */
  predicate SignedFor(f: Fingerprint, rules: Rules, messages: seq<Message>, k: nat, destination: string)
    requires k <= |messages|
  {
    exists j :: 0 <= j < k && Signed(f, rules, messages, j)
                && LatestBind(messages, j).Some? && f(LatestBind(messages, j).value.hostKey) == destination
  }

  lemma KnownGrows(f: Fingerprint, rules: Rules, messages: seq<Message>, k: nat)
    requires k < |messages|
    ensures var destination := Destination(f, LatestBind(messages, k));
      Before(f, rules, messages, k + 1).0.known
      == Before(f, rules, messages, k).0.known
         + (if Signed(f, rules, messages, k) && destination.Some? then {destination.value} else {})
  {
    hide Parse, Describe, Signed;
    SignedIff(f, rules, messages, k);
    BindIsLatest(f, rules, messages, k);
  }

  /** The policy knows a destination exactly when it did at the start or a signature was
      returned for it since: binding to one, or being refused there, adds nothing. */
  lemma {:induction false} KnownIff(f: Fingerprint, rules: Rules, messages: seq<Message>, k: nat, destination: string)
    requires k <= |messages|
    ensures destination in Before(f, rules, messages, k).0.known
       <==> destination in rules.known || SignedFor(f, rules, messages, k, destination)
  {
    hide HandleMessage, Parse, Signed;
    if k > 0 {
      KnownIff(f, rules, messages, k - 1, destination);
      KnownGrows(f, rules, messages, k - 1);
      var signed :=
        Signed(f, rules, messages, k - 1) && Destination(f, LatestBind(messages, k - 1)) == Some(destination);
      assert SignedFor(f, rules, messages, k, destination)
        <==> SignedFor(f, rules, messages, k - 1, destination) || signed;
    }
  }

  /** What the phone is told is true: the prompt names the user in the bytes to be signed, the latest
      bind's destination and flag, and says "first time" exactly when no destination is named or none
      known matches it. */
  lemma {:induction false} PromptsTellTheTruth(f: Fingerprint, rules: Rules, messages: seq<Message>, k: nat)
    returns (sessionId: Blob, service: Blob, rest: Blob)
    requires k < |messages| && Parse(messages[k].body).Sign?
    requires Decide(f, Before(f, rules, messages, k).0, Describe(Parse(messages[k].body).request.data),
                    LatestBind(messages, k)).Ask?
    ensures var data, bind := Parse(messages[k].body).request.data, LatestBind(messages, k);
      var prompt := Decide(f, Before(f, rules, messages, k).0, Describe(data), bind).prompt;
      && data == Userauth(sessionId, prompt.user, service) + rest
      && prompt.destination == (if bind.Some? then Some(f(bind.value.hostKey)) else None)
      && prompt.forwarded == (bind.Some? && bind.value.forwarding)
      && (!prompt.firstTime <==>
            prompt.destination.Some?
            && (prompt.destination.value in rules.known
                || SignedFor(f, rules, messages, k, prompt.destination.value)))
  {
    hide HandleMessage, Parse, Signed, Describe, Userauth;
    var data := Parse(messages[k].body).request.data;
    sessionId, rest := DescribedMeansSaid(data, Describe(data).value);
    service := Describe(data).value.service;
    var destination := Destination(f, LatestBind(messages, k));
    if destination.Some? {
      KnownIff(f, rules, messages, k, destination.value);
    }
  }
}
