/** Bounded framing over BLE characteristic values (ble_framing.rs).

    The encoder and the decoder are classes, as in the source; each of their methods is
    proved against a specification function, and `BleReassembly` proves what the source
    promises about runs of those functions. */
module BleFraming {
  import opened Common

  const HEADER_BYTES := 6
  const MAX_CHUNKS := 1024
  const MAX_PARTIAL_FRAMES := 4

  datatype FramingError =
    | RefusedFrame
    | MtuTooSmall
    | TooManyChunks
    | NoPayload
    | InvalidHeader
    | TooManyPartialFrames
    | InconsistentOrDuplicate
    | OverSizeLimit
    | MissingChunk

  // ---- The wire form ----

  /** Rounded-up division, as `div_ceil`. */
  function ChunkCount(length: nat, dataBytes: nat): nat
    requires dataBytes > 0
  {
    (length + dataBytes - 1) / dataBytes
  }

  lemma ChunkCountBounds(length: nat, dataBytes: nat)
    requires dataBytes > 0
    ensures (ChunkCount(length, dataBytes) - 1) * dataBytes < length || length == 0
    ensures length <= ChunkCount(length, dataBytes) * dataBytes
    ensures length > 0 <==> ChunkCount(length, dataBytes) > 0
  {
    var n := ChunkCount(length, dataBytes);
    assert (length + dataBytes - 1) == n * dataBytes + (length + dataBytes - 1) % dataBytes;
    assert (n - 1) * dataBytes == n * dataBytes - dataBytes;
    if length > 0 && n == 0 {
      assert false;
    }
  }

  /** The bytes before chunk `index` starts, capped at the frame's length. */
  function Offset(length: nat, dataBytes: nat, index: nat): (r: nat)
    ensures r <= length
  {
    Min(index * dataBytes, length)
  }

  lemma OffsetGrows(length: nat, dataBytes: nat, index: nat)
    ensures Offset(length, dataBytes, index) <= Offset(length, dataBytes, index + 1)
    ensures dataBytes > 0 && index < ChunkCount(length, dataBytes)
            ==> Offset(length, dataBytes, index) < Offset(length, dataBytes, index + 1)
  {
    assert (index + 1) * dataBytes == index * dataBytes + dataBytes;
    if dataBytes > 0 && index < ChunkCount(length, dataBytes) {
      var n := ChunkCount(length, dataBytes);
      ChunkCountBounds(length, dataBytes);
      assert index * dataBytes <= (n - 1) * dataBytes;
    }
  }

  /** The frame bytes that chunk `index` carries, as `slice::chunks` cuts them. */
  function Payload(frame: seq<byte>, dataBytes: nat, index: nat): seq<byte> {
    OffsetGrows(|frame|, dataBytes, index);
    frame[Offset(|frame|, dataBytes, index)..Offset(|frame|, dataBytes, index + 1)]
  }

  /** Frame id, chunk index and chunk count, all big-endian, then the payload. */
  function ChunkBytes(id: u16, index: u16, total: u16, payload: seq<byte>): seq<byte> {
    U16Be(id) + U16Be(index) + U16Be(total) + payload
  }

  function HeaderId(chunk: seq<byte>): u16
    requires |chunk| >= HEADER_BYTES
  {
    ReadU16Be(chunk[0..2])
  }

  function HeaderIndex(chunk: seq<byte>): u16
    requires |chunk| >= HEADER_BYTES
  {
    ReadU16Be(chunk[2..4])
  }

  function HeaderTotal(chunk: seq<byte>): u16
    requires |chunk| >= HEADER_BYTES
  {
    ReadU16Be(chunk[4..6])
  }

  lemma ChunkBytesRead(id: u16, index: u16, total: u16, payload: seq<byte>)
    ensures var c := ChunkBytes(id, index, total, payload);
      |c| == HEADER_BYTES + |payload|
      && HeaderId(c) == id && HeaderIndex(c) == index && HeaderTotal(c) == total
      && c[HEADER_BYTES..] == payload
  {
    var c := ChunkBytes(id, index, total, payload);
    assert c[0..2] == U16Be(id) && c[2..4] == U16Be(index) && c[4..6] == U16Be(total);
    U16BeReads(id);
    U16BeReads(index);
    U16BeReads(total);
  }

  lemma ChunkBytesCanonical(c: seq<byte>)
    requires |c| >= HEADER_BYTES
    ensures c == ChunkBytes(HeaderId(c), HeaderIndex(c), HeaderTotal(c), c[HEADER_BYTES..])
  {
    U16BeCanonical(c[0..2]);
    U16BeCanonical(c[2..4]);
    U16BeCanonical(c[4..6]);
    assert c == c[0..2] + c[2..4] + c[4..6] + c[6..];
  }

  // ---- Encoder ----

  function EncodedChunk(id: u16, frame: seq<byte>, dataBytes: nat, index: nat): seq<byte>
    requires dataBytes > 0 && index < ChunkCount(|frame|, dataBytes) <= MAX_CHUNKS
  {
    ChunkBytes(id, index, ChunkCount(|frame|, dataBytes), Payload(frame, dataBytes, index))
  }

  function EncodedChunks(id: u16, frame: seq<byte>, dataBytes: nat): seq<seq<byte>>
    requires dataBytes > 0 && ChunkCount(|frame|, dataBytes) <= MAX_CHUNKS
  {
    seq(ChunkCount(|frame|, dataBytes),
        index requires 0 <= index < ChunkCount(|frame|, dataBytes) => EncodedChunk(id, frame, dataBytes, index))
  }

  /** A header of three big-endian numbers, and then these bytes. */
  ghost predicate Carries(chunk: seq<byte>, id: int, index: int, total: int, part: seq<byte>) {
    && |chunk| == 6 + |part| && chunk[6..] == part
    && id == 256 * (chunk[0] as int) + chunk[1] && index == 256 * (chunk[2] as int) + chunk[3]
    && total == 256 * (chunk[4] as int) + chunk[5]
  }

  /** The bytes of the frame from `index` full chunks on, as many as one chunk takes. */
  ghost predicate PartOf(frame: seq<byte>, dataBytes: nat, index: nat, total: nat, part: seq<byte>) {
    var at := index * dataBytes;
    && at + |part| <= |frame| && part == frame[at..at + |part|]
    && if index + 1 < total then |part| == dataBytes else 0 < |part| <= dataBytes && at + |part| == |frame|
  }

  /** Every chunk but the last is filled, the last is not empty, and each carries the frame's bytes
      from where those before it end, under its number and the count of them all. */
  lemma EveryChunkIsFilled(id: u16, frame: seq<byte>, dataBytes: nat, index: nat) returns (part: seq<byte>)
    requires frame != [] && dataBytes > 0 && ChunkCount(|frame|, dataBytes) <= 1024
    requires index < |EncodedChunks(id, frame, dataBytes)|
    ensures var chunks := EncodedChunks(id, frame, dataBytes);
      Carries(chunks[index], id, index, |chunks|, part) && PartOf(frame, dataBytes, index, |chunks|, part)
  {
    hide ChunkCount, Payload, ChunkBytes, Offset;
    var n := ChunkCount(|frame|, dataBytes);
    ChunkCountBounds(|frame|, dataBytes);
    PayloadIs(frame, dataBytes, index);
    part := Payload(frame, dataBytes, index);
    assert EncodedChunks(id, frame, dataBytes)[index] == EncodedChunk(id, frame, dataBytes, index);
    ChunkBytesRead(id, index, n, part);
  }

  lemma PayloadIs(frame: seq<byte>, dataBytes: nat, index: nat)
    requires frame != [] && dataBytes > 0 && index < ChunkCount(|frame|, dataBytes)
    ensures var at, next := index * dataBytes, (index + 1) * dataBytes;
      && next == at + dataBytes && at < |frame|
      && (index + 1 < ChunkCount(|frame|, dataBytes) <==> next < |frame|)
      && Payload(frame, dataBytes, index) == frame[at..if next < |frame| then next else |frame|]
  {
    hide ChunkCount;
    var n := ChunkCount(|frame|, dataBytes);
    ChunkCountBounds(|frame|, dataBytes);
    assert (index + 1) * dataBytes == index * dataBytes + dataBytes;
    OffsetGrows(|frame|, dataBytes, index);
    Multiples(index, n - 1, dataBytes);
    if index + 1 < n {
      Multiples(index + 1, n - 1, dataBytes);
    } else {
      assert index + 1 == n;
    }
  }

  lemma Multiples(a: nat, b: nat, n: nat)
    requires a <= b
    ensures a * n <= b * n
  {
  }

  class BleFrameEncoder {
    const maxFrame: nat
    var nextFrameId: u16

    constructor (maxFrame: nat)
      ensures this.maxFrame == maxFrame && nextFrameId == 0
    {
      this.maxFrame := maxFrame;
      nextFrameId := 0;
    }

    /** An accepted frame takes the current id and moves the counter on, wrapping at 16 bits;
        a refused one takes no id. */
    method Encode(frame: seq<byte>, attPayloadBytes: nat) returns (r: Result<seq<seq<byte>>, FramingError>)
      modifies this
      ensures r.Ok? <==> 0 < |frame| <= maxFrame && attPayloadBytes > 6
                         && ChunkCount(|frame|, attPayloadBytes - 6) <= 1024
      ensures r.Ok? ==> r.value == EncodedChunks(old(nextFrameId), frame, attPayloadBytes - 6)
      ensures r.Err? && !(0 < |frame| <= maxFrame) ==> r.error == RefusedFrame
      ensures r.Err? && 0 < |frame| <= maxFrame && attPayloadBytes <= 6 ==> r.error == MtuTooSmall
      ensures r.Err? && 0 < |frame| <= maxFrame && attPayloadBytes > 6 ==> r.error == TooManyChunks
      ensures nextFrameId == if r.Ok? then (old(nextFrameId) + 1) % 0x1_0000 else old(nextFrameId)
    {
      if |frame| == 0 || |frame| > maxFrame {
        return Err(RefusedFrame);
      }
      if attPayloadBytes < HEADER_BYTES {
        return Err(MtuTooSmall);
      }
      var dataBytes := attPayloadBytes - HEADER_BYTES;
      if dataBytes == 0 {
        return Err(MtuTooSmall);
      }
      var total := ChunkCount(|frame|, dataBytes);
      if total > MAX_CHUNKS {
        return Err(TooManyChunks);
      }
      var frameId := nextFrameId;
      nextFrameId := (nextFrameId + 1) % 0x1_0000;
      return Ok(EncodedChunks(frameId, frame, dataBytes));
    }
  }

  // ---- Decoder ----

  datatype PartialFrame = PartialFrame(total: nat, chunks: map<nat, seq<byte>>, bytes: nat)

  type Partials = map<u16, PartialFrame>

  datatype Reply = Pending | Frame(bytes: seq<byte>) | Rejected(error: FramingError)

  /** The chunks below `n`, joined in index order. */
  function Join(chunks: map<nat, seq<byte>>, n: nat): seq<byte>
    requires forall i: nat :: i < n ==> i in chunks
  {
    if n == 0 then [] else Join(chunks, n - 1) + chunks[n - 1]
  }

  lemma JoinNext(chunks: map<nat, seq<byte>>, n: nat)
    requires forall i: nat :: i <= n ==> i in chunks
    ensures Join(chunks, n + 1) == Join(chunks, n) + chunks[n]
  {
  }

  /** The frame that is emitted, unless a chunk is missing. */
  function Collected(chunks: map<nat, seq<byte>>, total: nat): Reply {
    if forall i: nat :: i < total ==> i in chunks then Frame(Join(chunks, total)) else Rejected(MissingChunk)
  }

  datatype Received = Received(partial: Partials, reply: Reply)

  /** The frame a chunk joins: the one already held for its id, or a new empty one. */
  function Joined(partial: Partials, id: u16, total: nat): PartialFrame {
    if id in partial then partial[id] else PartialFrame(total, map[], 0)
  }

  /** The frame with one more chunk. */
  function Extended(frame: PartialFrame, index: nat, part: seq<byte>): PartialFrame {
    PartialFrame(frame.total, frame.chunks[index := part], frame.bytes + |part|)
  }

  function Accept(maxFrame: nat, partial: Partials, id: u16, index: nat, total: nat, part: seq<byte>): Received {
    if total == 0 || total > MAX_CHUNKS || index >= total then
      Received(partial, Rejected(InvalidHeader))
    else if id !in partial && |partial| >= MAX_PARTIAL_FRAMES then
      Received(partial, Rejected(TooManyPartialFrames))
    else
      var frame := Joined(partial, id, total);
      if frame.total != total || index in frame.chunks then
        Received(partial - {id}, Rejected(InconsistentOrDuplicate))
      else if frame.bytes + |part| > maxFrame then
        Received(partial - {id}, Rejected(OverSizeLimit))
      else
        var grown := Extended(frame, index, part);
        if |grown.chunks| != total then
          Received(partial[id := grown], Pending)
        else
          Received(partial - {id}, Collected(grown.chunks, total))
  }

  /** What one characteristic value does to the decoder, and what it answers. */
  function Receive(maxFrame: nat, partial: Partials, chunk: seq<byte>): Received {
    if |chunk| <= HEADER_BYTES then
      Received(partial, Rejected(NoPayload))
    else
      Accept(maxFrame, partial, HeaderId(chunk), HeaderIndex(chunk), HeaderTotal(chunk), chunk[HEADER_BYTES..])
  }

  /** The two maps agree on every other id. */
  ghost predicate AlikeBut(a: Partials, b: Partials, id: u16) {
    forall other :: other != id ==> (other in a <==> other in b) && (other in a ==> a[other] == b[other])
  }

  lemma Opened(before: Partials, id: u16, total: nat)
    ensures AlikeBut(before, before, id)
    ensures Joined(before, id, total) == if id in before then before[id] else PartialFrame(total, map[], 0)
    ensures var opened_ := before[id := PartialFrame(total, map[], 0)];
      AlikeBut(before, opened_, id) && opened_[id] == PartialFrame(total, map[], 0)
  {
  }

  lemma Removed(before: Partials, partial: Partials, id: u16)
    requires AlikeBut(before, partial, id)
    ensures partial - {id} == before - {id}
  {
  }

  lemma Replaced(before: Partials, partial: Partials, id: u16, frame: PartialFrame)
    requires AlikeBut(before, partial, id)
    ensures partial[id := frame] == before[id := frame] && AlikeBut(before, before[id := frame], id)
  {
  }

  /** The answers, case by case. */
  lemma ReceiveCases(maxFrame: nat, partial: Partials, chunk: seq<byte>)
    requires |chunk| > HEADER_BYTES
    ensures var id, index, total := HeaderId(chunk), HeaderIndex(chunk), HeaderTotal(chunk);
      var r := Receive(maxFrame, partial, chunk);
      var frame := Joined(partial, id, total);
      var size := frame.bytes + |chunk| - HEADER_BYTES;
      var grown := PartialFrame(frame.total, frame.chunks[index := chunk[HEADER_BYTES..]], size);
      if total == 0 || total > MAX_CHUNKS || index >= total then r == Received(partial, Rejected(InvalidHeader))
      else if id !in partial && |partial| >= MAX_PARTIAL_FRAMES then
        r == Received(partial, Rejected(TooManyPartialFrames))
      else if frame.total != total || index in frame.chunks then
        r == Received(partial - {id}, Rejected(InconsistentOrDuplicate))
      else if size > maxFrame then r == Received(partial - {id}, Rejected(OverSizeLimit))
      else if |grown.chunks| != total then r == Received(partial[id := grown], Pending)
      else r == Received(partial - {id}, Collected(grown.chunks, total))
  {
    hide HeaderId, HeaderIndex, HeaderTotal, Collected;
  }

  lemma NoPayloadIsRefused(maxFrame: nat, partial: Partials, chunk: seq<byte>)
    requires |chunk| <= HEADER_BYTES
    ensures Receive(maxFrame, partial, chunk) == Received(partial, Rejected(NoPayload))
  {
  }

  class BleFrameDecoder {
    const maxFrame: nat
    var partial: Partials

    constructor (maxFrame: nat)
      ensures this.maxFrame == maxFrame && partial == map[]
    {
      this.maxFrame := maxFrame;
      partial := map[];
    }

    method AddChunk(chunk: seq<byte>) returns (reply: Reply)
      modifies this
      ensures Received(partial, reply) == Receive(maxFrame, old(partial), chunk)
    {
      hide HeaderId, HeaderIndex, HeaderTotal, Collected, AlikeBut, Receive, Accept, Joined;
      if |chunk| <= HEADER_BYTES {
        NoPayloadIsRefused(maxFrame, partial, chunk);
        return Rejected(NoPayload);
      }
      ReceiveCases(maxFrame, partial, chunk);
      var frameId := HeaderId(chunk);
      var index := HeaderIndex(chunk);
      var total := HeaderTotal(chunk);
      if total == 0 || total > MAX_CHUNKS || index >= total {
        return Rejected(InvalidHeader);
      }
      if frameId !in partial && |partial| >= MAX_PARTIAL_FRAMES {
        return Rejected(TooManyPartialFrames);
      }
      ghost var before := partial;
      if frameId !in partial {
        partial := partial[frameId := PartialFrame(total, map[], 0)];
      }
      Opened(before, frameId, total);
      var frame := partial[frameId];
      if frame.total != total || index in frame.chunks {
        Removed(before, partial, frameId);
        partial := partial - {frameId};
        return Rejected(InconsistentOrDuplicate);
      }
      frame := frame.(bytes := frame.bytes + |chunk| - HEADER_BYTES);
      if frame.bytes > maxFrame {
        Removed(before, partial, frameId);
        partial := partial - {frameId};
        return Rejected(OverSizeLimit);
      }
      frame := frame.(chunks := frame.chunks[index := chunk[HEADER_BYTES..]]);
      Replaced(before, partial, frameId, frame);
      partial := partial[frameId := frame];
      if |frame.chunks| != total {
        return Pending;
      }
      Removed(before, partial, frameId);
      partial := partial - {frameId};
      reply := Collect(frame.chunks, total);
    }

    /** Takes the chunks in index order, unless one is missing. */
    method Collect(chunks: map<nat, seq<byte>>, total: nat) returns (reply: Reply)
      ensures reply == Collected(chunks, total)
    {
      var bytes: seq<byte> := [];
      for next := 0 to total
        invariant forall i: nat :: i < next ==> i in chunks
        invariant bytes == Join(chunks, next)
      {
        if next !in chunks {
          return Rejected(MissingChunk);
        }
        JoinNext(chunks, next);
        bytes := bytes + chunks[next];
      }
      return Frame(bytes);
    }
  }
}
