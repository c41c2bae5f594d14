/** Splitting a byte stream into ssh-agent message bodies (ssh_session.rs, ssh_agent.rs). */
module SshFraming {
  import opened Common

  const MAX_MESSAGE_BYTES := 256 * 1024

  datatype FramingError = EmptyMessage | OverSizeLimit

  /** Puts the 32-bit length in front. */
  function Framed(body: seq<byte>): seq<byte> {
    U32Be(|body| % 0x1_0000_0000) + body
  }

  /** The length announced, if the prefix is complete, or why it will not be honoured. */
  function AnnouncedLength(prefix: seq<byte>): Result<Option<nat>, FramingError> {
    if |prefix| < 4 then Ok(None)
    else
      var length := ReadU32Be(prefix[..4]);
      if length == 0 then Err(EmptyMessage)
      else if length > MAX_MESSAGE_BYTES then Err(OverSizeLimit)
      else Ok(Some(length))
  }

  /** The complete messages at the front of a stream, the tail they leave, and the error at the
      head of the tail if the next length is one that will not be honoured. */
  datatype Split = Split(messages: seq<seq<byte>>, tail: seq<byte>, error: Option<FramingError>)

  function SplitStream(stream: seq<byte>): Split
    decreases |stream|
  {
    match AnnouncedLength(stream)
    case Err(e) => Split([], stream, Some(e))
    case Ok(None) => Split([], stream, None)
    case Ok(Some(length)) =>
      if |stream| < 4 + length then Split([], stream, None)
      else
        var rest := SplitStream(stream[4 + length..]);
        rest.(messages := [stream[4..4 + length]] + rest.messages)
  }

  class SshFraming {
    var pending: seq<byte>

    constructor ()
      ensures pending == []
    {
      pending := [];
    }

    /** Adds bytes and returns the messages they completed. On an error the messages already
        split off in this call are dropped with it. */
    method Push(bytes: seq<byte>) returns (r: Result<seq<seq<byte>>, FramingError>)
      modifies this
      ensures var split := SplitStream(old(pending) + bytes);
        && pending == split.tail
        && r == match split.error case Some(e) => Err(e) case None => Ok(split.messages)
    {
      pending := pending + bytes;
      var out: seq<seq<byte>> := [];
      ghost var stream := pending;
      while true
        invariant var now, all := SplitStream(pending), SplitStream(stream);
          now.tail == all.tail && now.error == all.error && out + now.messages == all.messages
        decreases |pending|
      {
        var announced := AnnouncedLength(pending);
        if announced.Err? {
          return Err(announced.error);
        }
        assert SplitStream(pending).messages == [] ==> out + SplitStream(pending).messages == out;
        if announced.value.None? {
          return Ok(out);
        }
        var length := announced.value.value;
        if |pending| < 4 + length {
          return Ok(out);
        }
        out := out + [pending[4..4 + length]];
        pending := pending[4 + length..];
      }
    }
  }

  // ---- Any fragmentation ----

  lemma SamePrefix(a: seq<byte>, b: seq<byte>)
    requires |a| >= 4
    ensures AnnouncedLength(a + b) == AnnouncedLength(a)
  {
    assert (a + b)[..4] == a[..4];
  }

  predicate CompleteMessage(a: seq<byte>) {
    && |a| >= 4 && AnnouncedLength(a).Ok? && AnnouncedLength(a).value.Some?
    && |a| >= 4 + AnnouncedLength(a).value.value
  }

  /** The head of a stream that starts with a complete message. */
  lemma SplitHead(stream: seq<byte>, length: nat)
    requires AnnouncedLength(stream) == Ok(Some(length)) && |stream| >= 4 + length
    ensures SplitStream(stream)
         == var rest := SplitStream(stream[4 + length..]); rest.(messages := [stream[4..4 + length]] + rest.messages)
  {
  }

  /** The number that four bytes announce, the first the most significant. */
  function Announced(stream: seq<byte>): int
    requires |stream| >= 4
  {
    0x100_0000 * (stream[0] as int) + 0x1_0000 * (stream[1] as int) + 0x100 * (stream[2] as int) + stream[3]
  }

  /** A stream is refused at its head exactly when the number there is zero or more than 256 KiB, and
      otherwise its first message is that many bytes, once they are there. */
  lemma {:induction false} HeadIsJudged(stream: seq<byte>)
    ensures SplitStream(stream) == Split([], stream, Some(EmptyMessage)) <==> |stream| >= 4 && Announced(stream) == 0
    ensures SplitStream(stream) == Split([], stream, Some(OverSizeLimit))
       <==> |stream| >= 4 && Announced(stream) > 256 * 1024
    ensures SplitStream(stream) == Split([], stream, None)
       <==> |stream| < 4 || (0 < Announced(stream) <= 256 * 1024 && |stream| < 4 + Announced(stream))
    ensures |stream| >= 4 && 0 < Announced(stream) <= 256 * 1024 && |stream| >= 4 + Announced(stream) ==>
      SplitStream(stream).messages != [] && SplitStream(stream).messages[0] == stream[4..4 + Announced(stream)]
  {
    if |stream| >= 4 {
      assert ReadU32Be(stream[..4]) == Announced(stream);
      hide ReadU32Be, Announced;
      if CompleteMessage(stream) {
        SplitHead(stream, Announced(stream));
      }
    }
  }

  /** Splitting a stream that has grown goes on from the tail it left. */
  lemma {:induction false} SplitAppend(a: seq<byte>, b: seq<byte>)
    requires SplitStream(a).error == None
    ensures var first, rest, all := SplitStream(a), SplitStream(SplitStream(a).tail + b), SplitStream(a + b);
      all == rest.(messages := first.messages + rest.messages)
    decreases |a|
  {
    hide AnnouncedLength, SplitStream;
    if CompleteMessage(a) {
      var length := AnnouncedLength(a).value.value;
      SamePrefix(a, b);
      SplitHead(a, length);
      SplitHead(a + b, length);
      assert (a + b)[4 + length..] == a[4 + length..] + b;
      assert (a + b)[4..4 + length] == a[4..4 + length];
      SplitAppend(a[4 + length..], b);
    } else {
      SplitNothing(a);
    }
  }

  /** A stream that neither completes a message nor announces a refused length. */
  lemma SplitNothing(a: seq<byte>)
    requires SplitStream(a).error == None
    requires !CompleteMessage(a)
    ensures SplitStream(a) == Split([], a, None)
  {
  }

  /** A refusal at the head is the whole split; one further on has a message before it. */
  lemma SplitStops(a: seq<byte>)
    ensures AnnouncedLength(a).Err? ==> SplitStream(a) == Split([], a, Some(AnnouncedLength(a).error))
    ensures SplitStream(a).error.Some? ==> |a| >= 4
    ensures SplitStream(a).error.Some? && AnnouncedLength(a).Ok? ==>
      AnnouncedLength(a).value.Some? && |a| >= 4 + AnnouncedLength(a).value.value
  {
  }

  /** An error met on the way does not go away with more bytes. */
  lemma {:induction false} ErrorsStay(a: seq<byte>, b: seq<byte>)
    requires SplitStream(a).error.Some?
    ensures SplitStream(a + b) == SplitStream(a).(tail := SplitStream(a).tail + b)
    decreases |a|
  {
    hide AnnouncedLength, SplitStream;
    SplitStops(a);
    SamePrefix(a, b);
    if AnnouncedLength(a).Ok? {
      var length := AnnouncedLength(a).value.value;
      SplitHead(a, length);
      SplitHead(a + b, length);
      assert (a + b)[4 + length..] == a[4 + length..] + b;
      assert (a + b)[4..4 + length] == a[4..4 + length];
      ErrorsStay(a[4 + length..], b);
    } else {
      SplitStops(a + b);
    }
  }

  /** What a framer holding `pending` returns for a list of pushes: each push's messages, or
      nothing once a push has failed. */
  function Pushes(pending: seq<byte>, fragments: seq<seq<byte>>): (r: Result<seq<seq<seq<byte>>>, FramingError>)
    decreases |fragments|
  {
    if fragments == [] then Ok([])
    else
      var split := SplitStream(pending + fragments[0]);
      if split.error.Some? then Err(split.error.value)
      else
        match Pushes(split.tail, fragments[1..])
        case Err(e) => Err(e)
        case Ok(rest) => Ok([split.messages] + rest)
  }

  function TailAfter(pending: seq<byte>, fragments: seq<seq<byte>>): seq<byte>
    decreases |fragments|
  {
    if fragments == [] then pending
    else TailAfter(SplitStream(pending + fragments[0]).tail, fragments[1..])
  }

  /** However a stream is cut, the pushes all succeed exactly when the whole stream has no
      length that would be refused; then they return the messages of the whole stream, in
      order, and keep exactly its tail. When one fails it fails for the stream's own reason. */
  lemma {:induction false} FragmentationIsInvisible(pending: seq<byte>, fragments: seq<seq<byte>>)
    requires SplitStream(pending) == Split([], pending, None)
    ensures var whole, r := SplitStream(pending + Concat(fragments)), Pushes(pending, fragments);
      && (r.Ok? <==> whole.error == None)
      && (r.Ok? ==> Concat(r.value) == whole.messages && TailAfter(pending, fragments) == whole.tail)
      && (r.Err? ==> whole.error == Some(r.error))
    decreases |fragments|
  {
    if fragments == [] {
      assert pending + Concat(fragments) == pending;
    } else {
      var a := pending + fragments[0];
      assert pending + Concat(fragments) == a + Concat(fragments[1..]);
      if SplitStream(a).error.Some? {
        ErrorsStay(a, Concat(fragments[1..]));
      } else {
        SplitAppend(a, Concat(fragments[1..]));
        TailIsSplit(a);
        FragmentationIsInvisible(SplitStream(a).tail, fragments[1..]);
      }
    }
  }

  /** After a push that succeeds, the tail kept holds no complete message and no refusal. */
  lemma {:induction false} TailIsSplit(stream: seq<byte>)
    requires SplitStream(stream).error == None
    ensures SplitStream(SplitStream(stream).tail) == Split([], SplitStream(stream).tail, None)
    decreases |stream|
  {
    if |stream| >= 4 && AnnouncedLength(stream).value.Some? && |stream| >= 4 + AnnouncedLength(stream).value.value {
      TailIsSplit(stream[4 + AnnouncedLength(stream).value.value..]);
    }
  }

  /** After a push that fails, every further push fails the same way: nothing resynchronises. */
  lemma {:induction false} RefusalIsFinal(stream: seq<byte>, more: seq<byte>)
    requires SplitStream(stream).error.Some?
    ensures SplitStream(SplitStream(stream).tail + more).error == SplitStream(stream).error
    ensures SplitStream(SplitStream(stream).tail + more).messages == []
    decreases |stream|
  {
    if AnnouncedLength(stream).Ok? {
      RefusalIsFinal(stream[4 + AnnouncedLength(stream).value.value..], more);
    } else {
      SamePrefix(stream, more);
    }
  }

  // ---- What a refusal loses ----

  /** The messages that the pushes before the failing one, if one fails, have handed over. */
  function Handed(pending: seq<byte>, fragments: seq<seq<byte>>): seq<seq<byte>>
    decreases |fragments|
  {
    if fragments == [] then []
    else
      var split := SplitStream(pending + fragments[0]);
      if split.error.Some? then [] else split.messages + Handed(split.tail, fragments[1..])
  }

  /** The messages that the failing push, if one fails, had completed before it met the refusal. */
  function Dropped(pending: seq<byte>, fragments: seq<seq<byte>>): seq<seq<byte>>
    decreases |fragments|
  {
    if fragments == [] then []
    else
      var split := SplitStream(pending + fragments[0]);
      if split.error.Some? then split.messages else Dropped(split.tail, fragments[1..])
  }

  /** How many bytes came in the pushes before the failing one. */
  function BytesBefore(pending: seq<byte>, fragments: seq<seq<byte>>): nat
    decreases |fragments|
  {
    if fragments == [] then 0
    else
      var split := SplitStream(pending + fragments[0]);
      if split.error.Some? then 0 else |fragments[0]| + BytesBefore(split.tail, fragments[1..])
  }

  /** The length of the complete messages at the front of a stream, with their prefixes: where a
      refused length stands, if there is one. */
  function Consumed(stream: seq<byte>): int {
    |stream| - |SplitStream(stream).tail|
  }

  lemma {:induction false} ConsumedIsNatural(stream: seq<byte>)
    ensures Consumed(stream) >= 0
    ensures SplitStream(stream).messages == [] ==> SplitStream(stream).tail == stream
    decreases |stream|
  {
    if |stream| >= 4 && AnnouncedLength(stream).Ok? && |stream| >= 4 + AnnouncedLength(stream).value.value {
      ConsumedIsNatural(stream[4 + AnnouncedLength(stream).value.value..]);
    }
  }

  /** A message that pending bytes did not hold yet ends past them. */
  lemma NewMessageEndsLater(pending: seq<byte>, more: seq<byte>)
    requires SplitStream(pending) == Split([], pending, None)
    ensures SplitStream(pending + more).messages == [] <==> Consumed(pending + more) <= |pending|
  {
    var stream := pending + more;
    ConsumedIsNatural(stream);
    if SplitStream(stream).messages != [] {
      var length := AnnouncedLength(stream).value.value;
      if |pending| >= 4 {
        SamePrefix(pending, more);
      }
      hide AnnouncedLength;
      SplitHead(stream, length);
      ConsumedIsNatural(stream[4 + length..]);
    }
  }

  /** What is handed over and what is dropped make up the messages of the whole stream; nothing is
      dropped exactly when the failing push began no earlier than where the refused length stands. */
  lemma {:induction false} HandedAndDropped(pending: seq<byte>, fragments: seq<seq<byte>>)
    requires SplitStream(pending) == Split([], pending, None)
    ensures var whole := pending + Concat(fragments);
      && Handed(pending, fragments) + Dropped(pending, fragments) == SplitStream(whole).messages
      && (Dropped(pending, fragments) == [] <==> Consumed(whole) <= |pending| + BytesBefore(pending, fragments))
    decreases |fragments|
  {
    hide AnnouncedLength, SplitStream;
    if fragments == [] {
      assert pending + Concat(fragments) == pending;
    } else {
      var a, b := pending + fragments[0], Concat(fragments[1..]);
      assert pending + Concat(fragments) == a + b;
      if SplitStream(a).error.Some? {
        ErrorsStay(a, b);
        NewMessageEndsLater(pending, fragments[0]);
      } else {
        SplitAppend(a, b);
        TailIsSplit(a);
        HandedAndDropped(SplitStream(a).tail, fragments[1..]);
      }
    }
  }

  lemma {:induction false} AllHandedWithoutRefusal(pending: seq<byte>, fragments: seq<seq<byte>>)
    requires Pushes(pending, fragments).Ok?
    ensures Handed(pending, fragments) == Concat(Pushes(pending, fragments).value)
    ensures Dropped(pending, fragments) == []
    decreases |fragments|
  {
    hide SplitStream;
    if fragments != [] {
      AllHandedWithoutRefusal(SplitStream(pending + fragments[0]).tail, fragments[1..]);
    }
  }

  /** Whatever the stream and however it is cut: the client gets every message that stands before a
      refused length exactly when the push that met the refusal completed none, which is when that
      push began no earlier than the refused length itself. */
  lemma RefusalDropsIff(fragments: seq<seq<byte>>)
    ensures var whole := Concat(fragments);
      && (Handed([], fragments) == SplitStream(whole).messages <==> Dropped([], fragments) == [])
      && (Dropped([], fragments) == [] <==> Consumed(whole) <= BytesBefore([], fragments))
      && (Pushes([], fragments).Ok? ==> Handed([], fragments) == Concat(Pushes([], fragments).value))
  {
    hide Handed, Dropped, BytesBefore, Consumed;
    assert SplitStream([]) == Split([], [], None);
    hide SplitStream;
    HandedAndDropped([], fragments);
    assert [] + Concat(fragments) == Concat(fragments);
    if Pushes([], fragments).Ok? {
      AllHandedWithoutRefusal([], fragments);
    }
    assert Handed([], fragments) + [] == Handed([], fragments);
    assert |Handed([], fragments) + Dropped([], fragments)| == |Handed([], fragments)| + |Dropped([], fragments)|;
  }

  predicate Sendable(bodies: seq<seq<byte>>) {
    forall i :: 0 <= i < |bodies| ==> 0 < |bodies[i]| <= 256 * 1024
  }

  function FramedAll(bodies: seq<seq<byte>>): seq<byte> {
    if bodies == [] then [] else Framed(bodies[0]) + FramedAll(bodies[1..])
  }

  lemma FramedAnnounces(body: seq<byte>, rest: seq<byte>)
    requires 0 < |body| <= MAX_MESSAGE_BYTES
    ensures AnnouncedLength(Framed(body) + rest) == Ok(Some(|body|))
  {
    U32BeReads(|body|);
    assert (Framed(body) + rest)[..4] == U32Be(|body|);
  }

  lemma {:induction false} FramedSplits(bodies: seq<seq<byte>>)
    requires Sendable(bodies)
    ensures SplitStream(FramedAll(bodies)) == Split(bodies, [], None)
  {
    if bodies != [] {
      var stream, n := FramedAll(bodies), |bodies[0]|;
      FramedAnnounces(bodies[0], FramedAll(bodies[1..]));
      assert stream[4 + n..] == FramedAll(bodies[1..]);
      assert stream[4..4 + n] == bodies[0];
      FramedSplits(bodies[1..]);
    }
  }

  /** Framed nonempty bodies up to the limit come back as those bodies, however the bytes are
      cut into pushes, and leave nothing pending. */
  lemma FramedBodiesComeBack(bodies: seq<seq<byte>>, fragments: seq<seq<byte>>)
    requires Sendable(bodies) && Concat(fragments) == FramedAll(bodies)
    ensures var r := Pushes([], fragments);
      r.Ok? && Concat(r.value) == bodies && TailAfter([], fragments) == []
  {
    FragmentationIsInvisible([], fragments);
    assert [] + Concat(fragments) == FramedAll(bodies);
    FramedSplits(bodies);
  }

  /** A refused length does make the cut visible: a message completed by the same push as the
      refusal is dropped, and one completed by an earlier push is not. */
  lemma {:induction false} RefusalDropsItsPush()
    returns (message: seq<byte>, bad: seq<byte>)
    ensures Pushes([], [message + bad]) == Err(EmptyMessage)
    ensures Pushes([], [message]) == Ok([[[7]]]) && Pushes([], [message, bad]) == Err(EmptyMessage)
    ensures SplitStream(message + bad).messages == [[7]]
    ensures Handed([], [message + bad]) == [] && Handed([], [message, bad]) == [[7]]
  {
    message, bad := Framed([7]), Framed([]);
    var all := message + bad;
    FramedAnnounces([7], bad);
    FramedAnnounces([7], []);
    assert message + [] == message && all[4..5] == [7] && all[5..] == bad && message[4..5] == [7] && message[5..] == [];
    assert [] + all == all && [] + message == message && [] + bad == bad;
    var whole: seq<seq<byte>>, early: seq<seq<byte>>, cut: seq<seq<byte>> := [all], [message], [message, bad];
    assert whole[1..] == [] && early[1..] == [] && cut[1..] == [bad];
    ZeroIsRefused(bad);
    assert SplitStream([]) == Split([], [], None);
    SplitHead(all, 1);
    SplitHead(message, 1);
    hide AnnouncedLength, SplitStream, Framed;
    assert Pushes([], [bad]) == Err(EmptyMessage);
    assert Pushes([], []) == Ok([]);
    assert SplitStream(message).messages == [[7]] && SplitStream(message).tail == [];
    var sevens: seq<seq<byte>> := [[7]];
    assert [sevens] + [] == [sevens];
    assert Pushes([], early) == Ok([sevens]);
    assert Pushes(SplitStream(message).tail, cut[1..]) == Err(EmptyMessage);
    assert Handed([], whole) == [];
    assert Handed([], [bad]) == [] && sevens[..] == SplitStream(message).messages;
    assert Handed([], cut) == sevens + Handed([], cut[1..]);
  }

  lemma ZeroIsRefused(bad: seq<byte>)
    requires bad == Framed([])
    ensures SplitStream(bad) == Split([], bad, Some(EmptyMessage))
  {
    U32BeReads(0);
    assert bad[..4] == U32Be(0);
  }
}
