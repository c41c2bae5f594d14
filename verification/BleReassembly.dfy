/** What the BLE decoder promises over whole runs: bounded memory and traceable frames for
    arbitrary input, and exact reassembly for any legal interleaving of encoded frames. */
module BleReassembly {
  import opened Common
  import opened BleFraming

  // ---- Arbitrary input ----

  /** The decoder after a list of characteristic values, whatever they are. */
  function After(maxFrame: nat, inputs: seq<seq<byte>>): Partials {
    if inputs == [] then map[]
    else Receive(maxFrame, After(maxFrame, inputs[..|inputs| - 1]), inputs[|inputs| - 1]).partial
  }

  function ReplyAt(maxFrame: nat, inputs: seq<seq<byte>>, k: nat): Reply
    requires k < |inputs|
  {
    Receive(maxFrame, After(maxFrame, inputs[..k]), inputs[k]).reply
  }

  lemma AfterNext(maxFrame: nat, inputs: seq<seq<byte>>, k: nat)
    requires k < |inputs|
    ensures After(maxFrame, inputs[..k + 1]) == Receive(maxFrame, After(maxFrame, inputs[..k]), inputs[k]).partial
  {
    assert inputs[..k + 1][..k] == inputs[..k];
  }

  /** Bytes held for the indices below `n`. */
  function SumSizes(chunks: map<nat, seq<byte>>, n: nat): nat {
    if n == 0 then 0
    else SumSizes(chunks, n - 1) + (if n - 1 in chunks then |chunks[n - 1]| else 0)
  }

  ghost predicate BoundedFrame(maxFrame: nat, f: PartialFrame) {
    && 0 < |f.chunks| < f.total <= 1024
    && f.chunks.Keys <= Range(f.total)
    && (forall i :: i in f.chunks ==> f.chunks[i] != [])
    && f.bytes == SumSizes(f.chunks, f.total)
    && f.bytes <= maxFrame
  }

  ghost predicate Bounded(maxFrame: nat, partial: Partials) {
    && |partial| <= 4
    && forall id :: id in partial ==> BoundedFrame(maxFrame, partial[id])
  }

  lemma {:induction false} SumSizesInsert(chunks: map<nat, seq<byte>>, n: nat, k: nat, part: seq<byte>)
    requires k !in chunks
    ensures SumSizes(chunks[k := part], n) == SumSizes(chunks, n) + (if k < n then |part| else 0)
  {
    if n > 0 {
      SumSizesInsert(chunks, n - 1, k, part);
    }
  }

  lemma InsertedKeys(chunks: map<nat, seq<byte>>, k: nat, part: seq<byte>)
    requires k !in chunks
    ensures |chunks[k := part]| == |chunks| + 1
  {
    assert chunks[k := part].Keys == chunks.Keys + {k};
    assert |chunks[k := part].Keys| == |chunks.Keys| + 1;
  }

  lemma PartialsGrowOrShrink(partial: Partials, id: u16, f: PartialFrame)
    ensures |partial - {id}| <= |partial|
    ensures id in partial ==> |partial[id := f]| == |partial|
    ensures id !in partial ==> |partial[id := f]| == |partial| + 1
  {
    SubsetSize((partial - {id}).Keys, partial.Keys);
    assert |(partial - {id}).Keys| == |partial - {id}| && |partial.Keys| == |partial|;
    var grown := partial[id := f];
    assert grown.Keys == partial.Keys + {id} && |grown.Keys| == |grown|;
  }

  ghost predicate CanGrow(maxFrame: nat, f: PartialFrame) {
    BoundedFrame(maxFrame, f) || (0 < f.total <= MAX_CHUNKS && f.chunks == map[] && f.bytes == 0)
  }

  lemma GrowthKeepsBounds(maxFrame: nat, f: PartialFrame, index: nat, part: seq<byte>)
    requires CanGrow(maxFrame, f)
    requires index < f.total && index !in f.chunks && part != [] && f.bytes + |part| <= maxFrame
    ensures var g := Extended(f, index, part);
      if |g.chunks| == f.total then forall i: nat :: i < f.total ==> i in g.chunks
      else BoundedFrame(maxFrame, g)
  {
    var g := Extended(f, index, part);
    SumSizesInsert(f.chunks, f.total, index, part);
    EmptySum(f.total);
    InsertedKeys(f.chunks, index, part);
    FullRange(g.chunks.Keys, f.total);
    assert |g.chunks.Keys| == |g.chunks|;
  }

  lemma {:induction false} AcceptKeepsBounds(maxFrame: nat, partial: Partials, id: u16, index: nat, total: nat,
                                             part: seq<byte>)
    requires Bounded(maxFrame, partial) && part != []
    ensures Bounded(maxFrame, Accept(maxFrame, partial, id, index, total, part).partial)
    ensures Accept(maxFrame, partial, id, index, total, part).reply != Rejected(MissingChunk)
  {
    hide BoundedFrame, Join, Range;
    var frame := Joined(partial, id, total);
    PartialsGrowOrShrink(partial, id, Extended(frame, index, part));
    if 0 < total <= MAX_CHUNKS && index < total && frame.total == total
       && index !in frame.chunks && frame.bytes + |part| <= maxFrame {
      GrowthKeepsBounds(maxFrame, frame, index, part);
    }
  }

  /** One characteristic value, accepted or not, keeps the decoder inside its bounds, and by
      pigeonhole the missing-chunk answer is never given. */
  lemma {:induction false} ReceiveKeepsBounds(maxFrame: nat, partial: Partials, chunk: seq<byte>)
    requires Bounded(maxFrame, partial)
    ensures Bounded(maxFrame, Receive(maxFrame, partial, chunk).partial)
    ensures Receive(maxFrame, partial, chunk).reply != Rejected(MissingChunk)
  {
    if |chunk| > HEADER_BYTES {
      AcceptKeepsBounds(maxFrame, partial, HeaderId(chunk), HeaderIndex(chunk), HeaderTotal(chunk),
                        chunk[HEADER_BYTES..]);
    }
  }

  lemma {:induction false} EmptySum(n: nat)
    ensures SumSizes(map[], n) == 0
  {
    if n > 0 {
      EmptySum(n - 1);
    }
  }

  /** Whatever arrives, at most four frames are held, each with at least one and not all of
      its chunks, every chunk nonempty and in range, and never more than the frame limit. */
  lemma {:induction false} EveryRunIsBounded(maxFrame: nat, inputs: seq<seq<byte>>)
    ensures Bounded(maxFrame, After(maxFrame, inputs))
  {
    hide Receive;
    if inputs != [] {
      EveryRunIsBounded(maxFrame, inputs[..|inputs| - 1]);
      ReceiveKeepsBounds(maxFrame, After(maxFrame, inputs[..|inputs| - 1]), inputs[|inputs| - 1]);
    }
  }

  // ---- Where an emitted frame comes from ----

  /** Some input from position `lo` up to `hi` was exactly this chunk. */
  ghost predicate Arrived(inputs: seq<seq<byte>>, lo: nat, hi: nat,
                          id: u16, index: nat, total: nat, part: seq<byte>)
  {
    index < total <= MAX_CHUNKS
    && exists p: nat :: lo <= p < hi && p < |inputs| && inputs[p] == ChunkBytes(id, index, total, part)
  }

  /** The frame `id` has been held without a break since before input `lo + 1`. */
  ghost predicate HeldSince(maxFrame: nat, inputs: seq<seq<byte>>, lo: nat, hi: nat, id: u16) {
    forall m: nat :: lo < m <= hi <= |inputs| ==> id in After(maxFrame, inputs[..m])
  }

  /** Everything held for `id` after `k` inputs arrived in one unbroken stretch. */
  ghost predicate Traced(maxFrame: nat, inputs: seq<seq<byte>>, k: nat, lo: nat, id: u16)
    requires k <= |inputs|
  {
    var partial := After(maxFrame, inputs[..k]);
    && lo <= k
    && HeldSince(maxFrame, inputs, lo, k, id)
    && id in partial
    && forall i :: i in partial[id].chunks ==> Arrived(inputs, lo, k, id, i, partial[id].total, partial[id].chunks[i])
  }

  /** What one input leaves held for any id: what was there, or that plus the chunk it is. */
  lemma ReceivedHoldings(maxFrame: nat, partial: Partials, c: seq<byte>, other: u16)
    requires other in Receive(maxFrame, partial, c).partial
    ensures var now := Receive(maxFrame, partial, c).partial;
      || (other in partial && now[other] == partial[other])
      || (exists index: u16, total: u16, part ::
            && index < total <= MAX_CHUNKS && c == ChunkBytes(other, index, total, part)
            && Joined(partial, other, total).total == total
            && now[other] == Extended(Joined(partial, other, total), index, part))
  {
    if |c| > HEADER_BYTES {
      ChunkBytesCanonical(c);
      AcceptedHoldings(maxFrame, partial, HeaderId(c), HeaderIndex(c), HeaderTotal(c), c[HEADER_BYTES..], other);
    }
  }

  lemma AcceptedHoldings(maxFrame: nat, partial: Partials, id: u16, index: nat, total: nat, part: seq<byte>,
                         other: u16)
    requires other in Accept(maxFrame, partial, id, index, total, part).partial
    ensures var now := Accept(maxFrame, partial, id, index, total, part).partial;
      || (other in partial && now[other] == partial[other])
      || (other == id && index < total <= MAX_CHUNKS && Joined(partial, id, total).total == total
          && now[id] == Extended(Joined(partial, id, total), index, part))
  {
  }

  lemma ArrivalsExtend(inputs: seq<seq<byte>>, lo: nat, k: nat, id: u16, index: u16, frame: PartialFrame,
                       part: seq<byte>)
    requires lo <= k < |inputs| && index < frame.total <= MAX_CHUNKS
    requires inputs[k] == ChunkBytes(id, index, frame.total, part)
    requires forall i :: i in frame.chunks ==> Arrived(inputs, lo, k, id, i, frame.total, frame.chunks[i])
    ensures var chunks := Extended(frame, index, part).chunks;
      forall i :: i in chunks ==> Arrived(inputs, lo, k + 1, id, i, frame.total, chunks[i])
  {
    var chunks := Extended(frame, index, part).chunks;
    forall i | i in chunks
      ensures Arrived(inputs, lo, k + 1, id, i, frame.total, chunks[i])
    {
      if i != index {
        assert Arrived(inputs, lo, k, id, i, frame.total, frame.chunks[i]);
      }
    }
  }

  lemma {:induction false} HeldChunksArrived(maxFrame: nat, inputs: seq<seq<byte>>, k: nat, id: u16) returns (lo: nat)
    requires k <= |inputs| && id in After(maxFrame, inputs[..k])
    ensures Traced(maxFrame, inputs, k, lo, id)
  {
    hide Receive, Extended, ChunkBytes, Joined;
    var prev, now := After(maxFrame, inputs[..k - 1]), After(maxFrame, inputs[..k]);
    AfterNext(maxFrame, inputs, k - 1);
    ReceivedHoldings(maxFrame, prev, inputs[k - 1], id);
    if id in prev {
      lo := HeldChunksArrived(maxFrame, inputs, k - 1, id);
    } else {
      lo := k - 1;
    }
    if id in prev && now[id] == prev[id] {
      forall i | i in now[id].chunks
        ensures Arrived(inputs, lo, k, id, i, now[id].total, now[id].chunks[i])
      {
        assert Arrived(inputs, lo, k - 1, id, i, prev[id].total, prev[id].chunks[i]);
      }
    } else {
      var index: u16, total: u16, part :|
        && index < total <= MAX_CHUNKS && inputs[k - 1] == ChunkBytes(id, index, total, part)
        && Joined(prev, id, total).total == total
        && now[id] == Extended(Joined(prev, id, total), index, part);
      JoinedIsHeld(prev, id, total);
      ExtendedTotal(Joined(prev, id, total), index, part);
      ArrivalsExtend(inputs, lo, k - 1, id, index, Joined(prev, id, total), part);
    }
  }

  lemma JoinedIsHeld(partial: Partials, id: u16, total: nat)
    ensures id in partial ==> Joined(partial, id, total) == partial[id]
    ensures id !in partial ==> Joined(partial, id, total).chunks == map[]
  {
  }

  lemma ExtendedTotal(frame: PartialFrame, index: nat, part: seq<byte>)
    ensures Extended(frame, index, part).total == frame.total
  {
  }

  lemma EmittedFrame(maxFrame: nat, partial: Partials, id: u16, index: nat, total: nat, part: seq<byte>)
    requires Accept(maxFrame, partial, id, index, total, part).reply.Frame?
    ensures index < total <= MAX_CHUNKS && Joined(partial, id, total).total == total
    ensures var r := Accept(maxFrame, partial, id, index, total, part);
      var chunks := Extended(Joined(partial, id, total), index, part).chunks;
      id !in r.partial && (forall i: nat :: i < total ==> i in chunks) && r.reply == Frame(Join(chunks, total))
  {
  }

  lemma EmittedParts(maxFrame: nat, inputs: seq<seq<byte>>, k: nat, id: u16, index: u16, total: u16, part: seq<byte>)
    returns (lo: nat, parts: seq<seq<byte>>)
    requires k < |inputs| && inputs[k] == ChunkBytes(id, index, total, part)
    requires Accept(maxFrame, After(maxFrame, inputs[..k]), id, index, total, part).reply.Frame?
    ensures lo <= k && HeldSince(maxFrame, inputs, lo, k, id)
    ensures |parts| == total
    ensures forall i: nat :: i < total ==> Arrived(inputs, lo, k + 1, id, i, total, parts[i])
    ensures Accept(maxFrame, After(maxFrame, inputs[..k]), id, index, total, part).reply == Frame(Concat(parts))
  {
    hide Accept, Extended, ChunkBytes, Joined;
    var partial := After(maxFrame, inputs[..k]);
    EmittedFrame(maxFrame, partial, id, index, total, part);
    JoinedIsHeld(partial, id, total);
    var frame := Joined(partial, id, total);
    var chunks := Extended(frame, index, part).chunks;
    if id in partial {
      lo := HeldChunksArrived(maxFrame, inputs, k, id);
    } else {
      lo := k;
    }
    parts := seq(total, i requires 0 <= i < total => chunks[i]);
    JoinIsConcat(chunks, total, parts);
    ArrivalsExtend(inputs, lo, k, id, index, frame, part);
  }

  /** Every frame the decoder ever emits is the index-ordered join of chunks that arrived for
      that id, with that count, in one unbroken stretch ending with the emitting input. An
      earlier answer that closed the id lies before the stretch. */
  lemma {:induction false} EmittedFramesAreReceivedChunks(maxFrame: nat, inputs: seq<seq<byte>>, k: nat)
    returns (lo: nat, parts: seq<seq<byte>>)
    requires k < |inputs| && ReplyAt(maxFrame, inputs, k).Frame?
    ensures |inputs[k]| > HEADER_BYTES
    ensures lo <= k && HeldSince(maxFrame, inputs, lo, k, HeaderId(inputs[k]))
    ensures HeaderId(inputs[k]) !in After(maxFrame, inputs[..k + 1])
    ensures |parts| == HeaderTotal(inputs[k])
    ensures forall i: nat :: i < |parts| ==> Arrived(inputs, lo, k + 1, HeaderId(inputs[k]), i, |parts|, parts[i])
    ensures ReplyAt(maxFrame, inputs, k) == Frame(Concat(parts))
  {
    hide ChunkBytes, Extended;
    hide HeaderId, HeaderIndex, HeaderTotal;
    hide Accept, Joined;
    var c := inputs[k];
    AfterNext(maxFrame, inputs, k);
    ChunkBytesCanonical(c);
    var id, index, total, part := HeaderId(c), HeaderIndex(c), HeaderTotal(c), c[HEADER_BYTES..];
    EmittedFrame(maxFrame, After(maxFrame, inputs[..k]), id, index, total, part);
    lo, parts := EmittedParts(maxFrame, inputs, k, id, index, total, part);
  }

  /** Two frames emitted for one id come from stretches that do not meet: no chunk serves twice. */
  lemma {:induction false} StretchesAreDisjoint(maxFrame: nat, inputs: seq<seq<byte>>, j: nat, k: nat)
    returns (from: nat, first: seq<seq<byte>>, lo: nat, second: seq<seq<byte>>)
    requires j < k < |inputs| && ReplyAt(maxFrame, inputs, j).Frame? && ReplyAt(maxFrame, inputs, k).Frame?
    requires |inputs[j]| > HEADER_BYTES && |inputs[k]| > HEADER_BYTES
    requires HeaderId(inputs[j]) == HeaderId(inputs[k])
    ensures from <= j < lo <= k
    ensures ReplyAt(maxFrame, inputs, j) == Frame(Concat(first))
    ensures ReplyAt(maxFrame, inputs, k) == Frame(Concat(second))
    ensures var id := HeaderId(inputs[k]);
      && (forall i: nat :: i < |first| ==> Arrived(inputs, from, j + 1, id, i, |first|, first[i]))
      && (forall i: nat :: i < |second| ==> Arrived(inputs, lo, k + 1, id, i, |second|, second[i]))
  {
    hide ReplyAt, After, Arrived, HeaderId, HeaderTotal, Concat;
    from, first := EmittedFramesAreReceivedChunks(maxFrame, inputs, j);
    lo, second := EmittedFramesAreReceivedChunks(maxFrame, inputs, k);
  }

  lemma {:induction false} JoinIsConcat(chunks: map<nat, seq<byte>>, n: nat, parts: seq<seq<byte>>)
    requires |parts| == n
    requires forall i: nat :: i < n ==> i in chunks && parts[i] == chunks[i]
    ensures Join(chunks, n) == Concat(parts)
  {
    if n > 0 {
      JoinIsConcat(chunks, n - 1, parts[..n - 1]);
      ConcatSnoc(parts[..n - 1], parts[n - 1]);
      assert parts == parts[..n - 1] + [parts[n - 1]];
    } else {
      assert parts == [];
    }
  }
}
