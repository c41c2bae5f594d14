/** The ssh-agent messages (ssh_agent.rs): what a body parses to, what a sign request says, and
    the answers. Strings are those of RFC 4251, section 5: a 32-bit length, then the bytes; a
    text is a string whose bytes are UTF-8 (RFC 3629, section 4). The agent's own reader
    (phone-auth-protocol, ssh.rs) refuses a string over 64 KiB. */
module SshAgent {
  import opened Common
  import opened SshFraming
  import opened Text

  const SSH_AGENT_FAILURE: byte := 5
  const SSH_AGENT_SUCCESS: byte := 6
  const SSH_AGENTC_REQUEST_IDENTITIES: byte := 11
  const SSH_AGENT_IDENTITIES_ANSWER: byte := 12
  const SSH_AGENTC_SIGN_REQUEST: byte := 13
  const SSH_AGENT_SIGN_RESPONSE: byte := 14
  const SSH_AGENTC_EXTENSION: byte := 27
  const SSH_MSG_USERAUTH_REQUEST: byte := 50

  const MAX_FIELD_BYTES := 64 * 1024

  type Blob = seq<byte>

  /** Seven-bit text as bytes. */
  function Ascii(text: string): (b: Blob)
    ensures |b| == |text|
  {
    seq(|text|, i requires 0 <= i < |text| => text[i] as int % 0x80)
  }

  const SESSION_BIND: Blob := Ascii("session-bind@openssh.com")
  const PUBLICKEY: Blob := Ascii("publickey")

  datatype SignRequest = SignRequest(keyBlob: Blob, data: Blob, flags: u32)

  datatype SessionBind = SessionBind(hostKey: Blob, forwarding: bool)

  datatype SignContext = SignContext(user: Blob, service: Blob)

  datatype Request = Identities | Sign(request: SignRequest) | Bind(bind: SessionBind) | Unsupported

  // ---- Reading and writing strings ----

  datatype Read<+T> = Short | Read(value: T, rest: Blob)

  function Str(b: Blob): Blob {
    U32Be(|b| % 0x1_0000_0000) + b
  }

  function ReadU32(b: Blob): Read<u32> {
    if |b| < 4 then Short else Read(ReadU32Be(b[..4]), b[4..])
  }

  function ReadU8(b: Blob): Read<byte> {
    if b == [] then Short else Read(b[0], b[1..])
  }

  /** A string of any length, as the standard has it. */
  function ReadString(b: Blob): Read<Blob> {
    match ReadU32(b)
    case Short => Short
    case Read(n, rest) => if |rest| < n then Short else Read(rest[..n], rest[n..])
  }

  /** A string as the agent reads it. */
  function ReadStr(b: Blob): Read<Blob> {
    match ReadString(b)
    case Short => Short
    case Read(s, rest) => if |s| > MAX_FIELD_BYTES then Short else Read(s, rest)
  }

  function ReadText(b: Blob): Read<Blob> {
    match ReadStr(b)
    case Short => Short
    case Read(text, rest) => if Utf8(text) then Read(text, rest) else Short
  }

  /** Reading is exact: a string is read off a blob just when the blob starts with it... */
  lemma ReadStringIff(b: Blob, s: Blob, rest: Blob)
    requires |s| < 0x1_0000_0000
    ensures ReadString(b) == Read(s, rest) <==> b == Str(s) + rest
  {
    hide U32Be, ReadU32Be;
    U32BeReads(|s|);
    if b == Str(s) + rest {
      assert b[..4] == U32Be(|s|) && b[4..] == s + rest;
      assert b[4..][..|s|] == s && b[4..][|s|..] == rest;
    }
    if ReadString(b) == Read(s, rest) {
      U32BeCanonical(b[..4]);
      assert b == b[..4] + (b[4..][..|s|] + b[4..][|s|..]);
    }
  }

  /** ...and the agent's reader takes it just when it also is within the limit. */
  lemma ReadStrIff(b: Blob, s: Blob, rest: Blob)
    ensures ReadStr(b) == Read(s, rest) <==> b == Str(s) + rest && |s| <= 64 * 1024
  {
    hide ReadString, Str;
    if |s| <= MAX_FIELD_BYTES {
      ReadStringIff(b, s, rest);
    }
  }

  lemma ReadStrBounds(b: Blob)
    ensures ReadStr(b).Read? ==> |ReadStr(b).value| <= MAX_FIELD_BYTES && |ReadStr(b).rest| < |b|
  {
  }

  lemma ReadU32Iff(b: Blob, n: u32, rest: Blob)
    ensures ReadU32(b) == Read(n, rest) <==> b == U32Be(n) + rest
  {
    U32BeReads(n);
    if b == U32Be(n) + rest {
      assert b[..4] == U32Be(n) && b[4..] == rest;
    }
    if ReadU32(b) == Read(n, rest) {
      U32BeCanonical(b[..4]);
      assert b == b[..4] + b[4..];
    }
  }

  // ---- Requests: as the agent parses them, and as a client writes them (by the protocol's numbers) ----

  function ParseSign(rest: Blob): (r: Request)
    ensures r.Sign? || r.Unsupported?
  {
    match ReadStr(rest)
    case Short => Unsupported
    case Read(keyBlob, afterKey) =>
      match ReadStr(afterKey)
      case Short => Unsupported
      case Read(data, afterData) =>
        match ReadU32(afterData)
        case Short => Unsupported
        case Read(flags, end) => if end == [] then Sign(SignRequest(keyBlob, data, flags)) else Unsupported
  }

  function ParseBind(rest: Blob): (r: Request)
    ensures r.Bind? || r.Unsupported?
  {
    match ReadText(rest)
    case Short => Unsupported
    case Read(name, afterName) =>
      if name != SESSION_BIND then Unsupported
      else
        match ReadStr(afterName)
        case Short => Unsupported
        case Read(hostKey, afterKey) =>
          match ReadStr(afterKey)
          case Short => Unsupported
          case Read(sessionId, afterId) =>
            match ReadStr(afterId)
            case Short => Unsupported
            case Read(signature, afterSignature) =>
              match ReadU8(afterSignature)
              case Short => Unsupported
              case Read(forwarding, end) =>
                if end == [] then Bind(SessionBind(hostKey, forwarding != 0)) else Unsupported
  }

  function Parse(body: Blob): Request {
    if body == [] then Unsupported
    else if body[0] == SSH_AGENTC_REQUEST_IDENTITIES && |body| == 1 then Identities
    else if body[0] == SSH_AGENTC_SIGN_REQUEST then ParseSign(body[1..])
    else if body[0] == SSH_AGENTC_EXTENSION then ParseBind(body[1..])
    else Unsupported
  }

  /** What a client writes to have something signed. */
  function SignMessage(r: SignRequest): Blob {
    [13] + (Str(r.keyBlob) + (Str(r.data) + U32Be(r.flags)))
  }

  /** What a client writes to name the host it is connecting to. */
  function BindMessage(hostKey: Blob, sessionId: Blob, signature: Blob, forwarding: byte): Blob {
    [27] + (Str(Ascii("session-bind@openssh.com"))
            + (Str(hostKey) + (Str(sessionId) + (Str(signature) + [forwarding]))))
  }

  /** A body asks for the identities exactly when it is that one byte. */
  lemma ParsesAsIdentitiesIff(body: Blob)
    ensures Parse(body) == Identities <==> body == [11]
  {
    hide ReadStr, ReadText;
  }

  /** A body is a sign request exactly when it is that request's one spelling and neither its key
      nor its data is over the limit. */
  lemma {:induction false} ParsesAsSignIff(body: Blob, r: SignRequest)
    ensures Parse(body) == Sign(r)
       <==> body == SignMessage(r) && |r.keyBlob| <= 64 * 1024 && |r.data| <= 64 * 1024
  {
    hide ReadStr, Str, U32Be, ReadU32, ParseBind;
    assert SignMessage(r)[1..] == Str(r.keyBlob) + (Str(r.data) + U32Be(r.flags));
    var afterData := U32Be(r.flags) + [];
    assert U32Be(r.flags) == afterData;
    var afterKey := Str(r.data) + afterData;
    ReadU32Iff(afterData, r.flags, []);
    ReadStrIff(afterKey, r.data, afterData);
    if body != [] {
      assert body == [body[0]] + body[1..];
      ReadStrIff(body[1..], r.keyBlob, afterKey);
      if Parse(body) == Sign(r) {
        var key := ReadStr(body[1..]);
        var data := ReadStr(key.rest);
        ReadU32Iff(data.rest, r.flags, []);
        ReadStrIff(key.rest, r.data, data.rest);
        ReadStrIff(body[1..], r.keyBlob, key.rest);
      }
    }
  }

  /** Seven-bit text is what its bytes read as... */
  lemma {:induction false} AsciiReads(text: string)
    ensures AsText(Ascii(text)) == text <==> forall i :: 0 <= i < |text| ==> text[i] as int < 0x80
  {
    if AsText(Ascii(text)) == text {
      forall i | 0 <= i < |text| ensures text[i] as int < 0x80 {
        assert AsText(Ascii(text))[i] == text[i];
      }
    }
  }

  /** ...and so are the two names in the protocols. */
  lemma NamesRead()
    ensures AsText(SESSION_BIND) == "session-bind@openssh.com" && AsText(PUBLICKEY) == "publickey"
  {
    hide Ascii, AsText;
    AsciiReads("session-bind@openssh.com");
    AsciiReads("publickey");
  }

  lemma TextIsUtf8(text: string)
    ensures Utf8(Ascii(text))
  {
    AsciiIsUtf8(Ascii(text));
  }

  /** A field the agent's reader takes. */
  predicate Readable(field: Blob) {
    |field| <= 64 * 1024
  }

  lemma {:induction false} BindParses(hostKey: Blob, sessionId: Blob, signature: Blob, forwarding: byte)
    requires Readable(hostKey) && Readable(sessionId) && Readable(signature)
    ensures Parse(BindMessage(hostKey, sessionId, signature, forwarding)) == Bind(SessionBind(hostKey, forwarding != 0))
  {
    hide ReadStr, Str, Utf8, Ascii;
    var end := [forwarding];
    var afterId, afterKey := Str(signature) + end, Str(sessionId) + (Str(signature) + end);
    var afterName := Str(hostKey) + afterKey;
    var rest := Str(SESSION_BIND) + afterName;
    assert BindMessage(hostKey, sessionId, signature, forwarding)[1..] == rest;
    TextIsUtf8("session-bind@openssh.com");
    ReadStrIff(rest, SESSION_BIND, afterName);
    ReadStrIff(afterName, hostKey, afterKey);
    ReadStrIff(afterKey, sessionId, afterId);
    ReadStrIff(afterId, signature, end);
  }

  /** A body that parses as a session bind is one a client wrote for that host and flag, within
      the limits. */
  lemma {:induction false} BoundMeansWritten(body: Blob, bind: SessionBind)
    returns (sessionId: Blob, signature: Blob, forwarding: byte)
    requires Parse(body) == Bind(bind)
    ensures body == BindMessage(bind.hostKey, sessionId, signature, forwarding) && bind.forwarding == (forwarding != 0)
    ensures Readable(bind.hostKey) && Readable(sessionId) && Readable(signature)
  {
    hide ReadStr, Str, Utf8, Ascii;
    var name := ReadStr(body[1..]);
    var key := ReadStr(name.rest);
    var id := ReadStr(key.rest);
    var sig := ReadStr(id.rest);
    ReadStrBounds(body[1..]);
    ReadStrBounds(name.rest);
    ReadStrBounds(key.rest);
    ReadStrBounds(id.rest);
    ReadStrIff(body[1..], SESSION_BIND, name.rest);
    ReadStrIff(name.rest, bind.hostKey, key.rest);
    ReadStrIff(key.rest, id.value, id.rest);
    ReadStrIff(id.rest, sig.value, sig.rest);
    sessionId, signature, forwarding := id.value, sig.value, sig.rest[0];
    assert sig.rest == [forwarding];
    assert body == [body[0]] + body[1..];
  }

  /** A body is a session bind exactly when it is written as one, every field within the limit. */
  lemma {:induction false} ParsesAsBindIff(body: Blob, bind: SessionBind)
    ensures Parse(body) == Bind(bind)
       <==> exists sessionId, signature, forwarding: byte ::
              && body == BindMessage(bind.hostKey, sessionId, signature, forwarding)
              && Readable(bind.hostKey) && Readable(sessionId) && Readable(signature)
              && bind.forwarding == (forwarding != 0)
  {
    hide Parse, BindMessage, Readable;
    if Parse(body) == Bind(bind) {
      var sessionId, signature, forwarding := BoundMeansWritten(body, bind);
    }
    forall sessionId, signature, forwarding: byte
      | body == BindMessage(bind.hostKey, sessionId, signature, forwarding)
        && Readable(bind.hostKey) && Readable(sessionId) && Readable(signature)
      ensures Parse(body) == Bind(SessionBind(bind.hostKey, forwarding != 0))
    {
      BindParses(bind.hostKey, sessionId, signature, forwarding);
    }
  }

  // ---- What a sign request says ----

  function Describe(data: Blob): Option<SignContext> {
    match ReadStr(data)
    case Short => None
    case Read(sessionId, afterId) =>
      match ReadU8(afterId)
      case Short => None
      case Read(kind, afterKind) =>
        if kind != SSH_MSG_USERAUTH_REQUEST then None
        else
          match ReadText(afterKind)
          case Short => None
          case Read(user, afterUser) =>
            match ReadText(afterUser)
            case Short => None
            case Read(service, afterService) =>
              match ReadText(afterService)
              case Short => None
              case Read(method', _) => if method' == PUBLICKEY then Some(SignContext(user, service)) else None
  }

  /** The start of the blob RFC 4252, section 7 has a client sign. */
  function Userauth(sessionId: Blob, user: Blob, service: Blob): Blob {
    Str(sessionId) + ([50] + (Str(user) + (Str(service) + Str(Ascii("publickey")))))
  }

  /** The user and service shown are those in the blob being signed. */
  lemma {:induction false} DescribedMeansSaid(data: Blob, context: SignContext) returns (sessionId: Blob, rest: Blob)
    requires Describe(data) == Some(context)
    ensures data == Userauth(sessionId, context.user, context.service) + rest
    ensures Utf8(context.user) && Utf8(context.service)
    ensures Readable(sessionId) && Readable(context.user) && Readable(context.service)
  {
    hide ReadStr, Str, Utf8, Ascii;
    var id := ReadStr(data);
    var afterKind := id.rest[1..];
    var user := ReadStr(afterKind);
    var service := ReadStr(user.rest);
    var how := ReadStr(service.rest);
    ReadStrBounds(data);
    ReadStrBounds(afterKind);
    ReadStrBounds(user.rest);
    ReadStrBounds(service.rest);
    ReadStrIff(data, id.value, id.rest);
    ReadStrIff(afterKind, user.value, user.rest);
    ReadStrIff(user.rest, service.value, service.rest);
    ReadStrIff(service.rest, how.value, how.rest);
    sessionId, rest := id.value, how.rest;
    assert id.rest == [SSH_MSG_USERAUTH_REQUEST] + afterKind;
    assert data == Str(id.value) + ([SSH_MSG_USERAUTH_REQUEST]
                     + (Str(user.value) + (Str(service.value) + (Str(PUBLICKEY) + rest))));
    assert data == Userauth(id.value, user.value, service.value) + rest;
  }

  lemma SaidMeansDescribed(sessionId: Blob, context: SignContext, rest: Blob)
    requires Readable(sessionId) && Readable(context.user) && Readable(context.service)
    requires Utf8(context.user) && Utf8(context.service)
    ensures Describe(Userauth(sessionId, context.user, context.service) + rest) == Some(context)
  {
    TextIsUtf8("publickey");
    hide ReadStr, Str, Utf8, Ascii;
    var afterService := Str(PUBLICKEY) + rest;
    var afterUser := Str(context.service) + afterService;
    var afterKind := Str(context.user) + afterUser;
    var afterId := [SSH_MSG_USERAUTH_REQUEST] + afterKind;
    var data := Str(sessionId) + afterId;
    assert data == Userauth(sessionId, context.user, context.service) + rest;
    ReadStrIff(data, sessionId, afterId);
    assert afterId[1..] == afterKind;
    ReadStrIff(afterKind, context.user, afterUser);
    ReadStrIff(afterUser, context.service, afterService);
    ReadStrIff(afterService, PUBLICKEY, rest);
  }

  /** A blob is described as a login exactly when it starts as that login's signature request does,
      its texts well formed and every field within the limit. */
  lemma {:induction false} DescribedIff(data: Blob, context: SignContext)
    ensures Describe(data) == Some(context)
       <==> exists sessionId, rest ::
              && data == Userauth(sessionId, context.user, context.service) + rest
              && Utf8(context.user) && Utf8(context.service)
              && Readable(sessionId) && Readable(context.user) && Readable(context.service)
  {
    hide Describe, Userauth, Utf8, Readable;
    if Describe(data) == Some(context) {
      var sessionId, rest := DescribedMeansSaid(data, context);
    }
    forall sessionId, rest
      | data == Userauth(sessionId, context.user, context.service) + rest
        && Utf8(context.user) && Utf8(context.service)
        && Readable(sessionId) && Readable(context.user) && Readable(context.service)
      ensures Describe(data) == Some(context)
    {
      SaidMeansDescribed(sessionId, context, rest);
    }
  }

  // ---- Answers ----

  function Failure(): Blob {
    Framed([SSH_AGENT_FAILURE])
  }

  function Success(): Blob {
    Framed([SSH_AGENT_SUCCESS])
  }

  function SignResponse(signature: Blob): Blob {
    Framed([SSH_AGENT_SIGN_RESPONSE] + Str(signature))
  }

  datatype Key = Key(blob: Blob, comment: Blob)

  function KeyList(keys: seq<Key>): Blob {
    if keys == [] then [] else Str(keys[0].blob) + (Str(keys[0].comment) + KeyList(keys[1..]))
  }

  function IdentitiesBody(keys: seq<Key>): Blob {
    [SSH_AGENT_IDENTITIES_ANSWER] + (U32Be(|keys| % 0x1_0000_0000) + KeyList(keys))
  }

  lemma {:induction false} KeyListSnoc(keys: seq<Key>, n: nat)
    requires n < |keys|
    ensures KeyList(keys[..n + 1]) == KeyList(keys[..n]) + (Str(keys[n].blob) + Str(keys[n].comment))
    decreases n
  {
    hide Str;
    assert keys[..1][1..] == [];
    if n > 0 {
      KeyListSnoc(keys[1..], n - 1);
      assert keys[..n + 1][1..] == keys[1..][..n];
      assert keys[..n][1..] == keys[1..][..n - 1];
    }
  }

  method IdentitiesAnswer(keys: seq<Key>) returns (answer: Blob)
    ensures answer == Framed(IdentitiesBody(keys))
  {
    hide Str, U32Be, Framed;
    var bytes := [SSH_AGENT_IDENTITIES_ANSWER] + U32Be(|keys| % 0x1_0000_0000);
    ghost var head := bytes;
    assert head + KeyList(keys[..0]) == bytes;
    for i := 0 to |keys|
      invariant bytes == head + KeyList(keys[..i])
    {
      KeyListSnoc(keys, i);
      var key := Str(keys[i].blob) + Str(keys[i].comment);
      assert bytes + key == head + (KeyList(keys[..i]) + key);
      bytes := bytes + key;
    }
    assert keys[..|keys|] == keys;
    assert bytes == IdentitiesBody(keys);
    answer := Framed(bytes);
  }

  /** A client's reading of `count` keys, to the end. */
  function ReadKeys(b: Blob, count: nat): Option<seq<Key>>
    decreases count
  {
    if count == 0 then if b == [] then Some([]) else None
    else
      match ReadString(b)
      case Short => None
      case Read(blob, afterBlob) =>
        match ReadString(afterBlob)
        case Short => None
        case Read(comment, rest) =>
          match ReadKeys(rest, count - 1)
          case None => None
          case Some(keys) => Some([Key(blob, comment)] + keys)
  }

  /** A client's reading of the whole answer: one framed message, its type, a count and the keys. */
  function ReadIdentities(answer: Blob): Option<seq<Key>> {
    match ReadString(answer)
    case Short => None
    case Read(body, rest) =>
      if rest != [] || body == [] || body[0] != 12 then None
      else
        match ReadU32(body[1..])
        case Short => None
        case Read(count, keys) => ReadKeys(keys, count)
  }

  /** The list is long enough for its keys, so a list that fits a frame has no field that does not. */
  lemma {:induction false} KeyListSize(keys: seq<Key>)
    ensures |keys| <= |KeyList(keys)|
    ensures forall i :: 0 <= i < |keys| ==> |keys[i].blob| + |keys[i].comment| <= |KeyList(keys)|
  {
    hide U32Be;
    if keys != [] {
      KeyListSize(keys[1..]);
      forall i | 0 <= i < |keys| ensures |keys[i].blob| + |keys[i].comment| <= |KeyList(keys)| {
        if i > 0 {
          assert keys[i] == keys[1..][i - 1];
        }
      }
    }
  }

  lemma {:induction false} KeysReadBack(keys: seq<Key>)
    requires |KeyList(keys)| < 0x1_0000_0000
    ensures ReadKeys(KeyList(keys), |keys|) == Some(keys)
  {
    KeyListSize(keys);
    hide ReadString, Str;
    if keys != [] {
      var rest := KeyList(keys[1..]);
      ReadStringIff(KeyList(keys), keys[0].blob, Str(keys[0].comment) + rest);
      ReadStringIff(Str(keys[0].comment) + rest, keys[0].comment, rest);
      KeysReadBack(keys[1..]);
      assert [Key(keys[0].blob, keys[0].comment)] + keys[1..] == keys;
    }
  }

  /** A client that reads the answer gets the advertised keys, all of them and in order, whenever
      the answer fits a frame at all. */
  lemma {:induction false} IdentitiesReadBack(keys: seq<Key>)
    requires |IdentitiesBody(keys)| < 0x1_0000_0000
    ensures ReadIdentities(Framed(IdentitiesBody(keys))) == Some(keys)
  {
    hide ReadString, ReadU32, ReadKeys, KeyList, U32Be, Str;
    var body, list := IdentitiesBody(keys), KeyList(keys);
    KeyListSize(keys);
    FramedIsStr(body);
    ReadStringIff(Framed(body), body, []);
    assert Str(body) + [] == Str(body);
    assert body[1..] == U32Be(|keys|) + list;
    ReadU32Iff(body[1..], |keys|, list);
    KeysReadBack(keys);
  }

  lemma FramedIsStr(body: Blob)
    ensures Framed(body) == Str(body)
  {
  }

  // ---- The other answers, as a client reads them ----

  /** A client's reading of an answer: one framed message, its type and what follows. */
  datatype Answer = Unreadable | Answer(kind: byte, payload: Blob)

  function ReadAnswer(answer: Blob): Answer {
    match ReadString(answer)
    case Short => Unreadable
    case Read(body, rest) => if rest != [] || body == [] then Unreadable else Answer(body[0], body[1..])
  }

  lemma AnswerReads(body: Blob)
    requires body != [] && |body| < 0x1_0000_0000
    ensures ReadAnswer(Framed(body)) == Answer(body[0], body[1..])
  {
    hide ReadString, Str;
    FramedIsStr(body);
    ReadStringIff(Framed(body), body, []);
    assert Str(body) + [] == Str(body);
  }

  /** Every refusal is the one failure message, and a bind is acknowledged by the one of success. */
  lemma ShortAnswersReadBack()
    ensures ReadAnswer(Failure()) == Answer(5, []) && ReadAnswer(Success()) == Answer(6, [])
  {
    AnswerReads([SSH_AGENT_FAILURE]);
    AnswerReads([SSH_AGENT_SUCCESS]);
  }

  /** A client that reads a sign response finds the signature, all of it and nothing more, whenever the
      response fits a frame at all. */
  lemma {:induction false} SignatureReadsBack(signature: Blob)
    requires |signature| + 5 < 0x1_0000_0000
    ensures ReadAnswer(SignResponse(signature)).Answer? && ReadAnswer(SignResponse(signature)).kind == 14
    ensures ReadString(ReadAnswer(SignResponse(signature)).payload) == Read(signature, [])
  {
    hide ReadString, U32Be;
    var body := [SSH_AGENT_SIGN_RESPONSE] + Str(signature);
    AnswerReads(body);
    assert body[1..] == Str(signature) + [];
    ReadStringIff(body[1..], signature, []);
  }
}
