/** What earlier, abandoned frames cost: from any state the decoder can be in, exactly when a frame
    sent in order comes back. Nothing the decoder holds is dropped for its age. */
module BleLeftovers {
  import opened Common
  import opened BleFraming
  import opened BleReassembly
  import opened BleDelivery

  /** The answers to the chunks of a transmission from the `k`-th on, sent in order. */
  function Answers(maxFrame: nat, partial: Partials, s: Sent, k: nat): seq<Reply>
    requires k <= |s.parts| <= MAX_CHUNKS
    decreases |s.parts| - k
  {
    if k == |s.parts| then []
    else
      var r := Receive(maxFrame, partial, WireOf(s)[k]);
      [r.reply] + Answers(maxFrame, r.partial, s, k + 1)
  }

  predicate ComesBack(maxFrame: nat, partial: Partials, s: Sent)
    requires |s.parts| <= MAX_CHUNKS
  {
    Frame(s.Frame()) in Answers(maxFrame, partial, s, 0)
  }

  /** What is held for a frame is all its chunks from the `j`-th on. */
  predicate HeldFrom(f: PartialFrame, j: nat) {
    0 < j < f.total && forall i: nat :: i < f.total ==> (i in f.chunks <==> j <= i)
  }

  function HeldParts(f: PartialFrame, j: nat): (r: seq<seq<byte>>)
    requires HeldFrom(f, j)
    ensures |r| == f.total - j
  {
    seq(f.total - j, i requires 0 <= i < f.total - j => f.chunks[j + i])
  }

  /** What is left of an earlier frame completes this one: as many chunks in all, the last of them
      held and with the same bytes together. */
  ghost predicate CompletesAt(f: PartialFrame, s: Sent, j: nat) {
    HeldFrom(f, j) && f.total == |s.parts| && Concat(HeldParts(f, j)) == Concat(s.parts[j..])
  }

  /** What is held completes the frame at the `k`-th chunk or later. */
  ghost predicate Completable(f: PartialFrame, s: Sent, k: nat) {
    exists j: nat :: j >= k && CompletesAt(f, s, j)
  }

  lemma ReceivePart(maxFrame: nat, partial: Partials, s: Sent, k: nat)
    requires s.Valid(maxFrame) && k < |s.parts|
    ensures Receive(maxFrame, partial, WireOf(s)[k]) == Accept(maxFrame, partial, s.id, k, |s.parts|, s.parts[k])
  {
    hide ChunkBytes, HeaderId, HeaderIndex, HeaderTotal, Accept;
    ChunkBytesRead(s.id, k, |s.parts|, s.parts[k]);
  }

  /** The answer when a frame of this many chunks is held. */
  lemma AcceptHeld(maxFrame: nat, partial: Partials, id: u16, index: nat, total: nat, part: seq<byte>)
    requires id in partial && partial[id].total == total && index < total <= MAX_CHUNKS
    ensures var f := partial[id];
      var grown := Extended(f, index, part);
      Accept(maxFrame, partial, id, index, total, part)
      == if index in f.chunks then Received(partial - {id}, Rejected(InconsistentOrDuplicate))
         else if grown.bytes > maxFrame then Received(partial - {id}, Rejected(OverSizeLimit))
         else if |grown.chunks| == total then Received(partial - {id}, Collected(grown.chunks, total))
         else Received(partial[id := grown], Pending)
  {
    hide Collected;
  }

  // ---- A frame whose first chunk is lost ----

  /** The first chunk is not in what is held. */
  ghost predicate Hopeless(partial: Partials, s: Sent, k: nat) {
    s.id in partial ==>
      partial[s.id].total == |s.parts| && forall i :: i in partial[s.id].chunks ==> 1 <= i < k
  }

  lemma FewChunks(chunks: map<nat, seq<byte>>, n: nat)
    requires 0 < n && forall i :: i in chunks ==> 1 <= i < n
    ensures |chunks| < n
  {
    RangeSize(n);
    assert 0 in Range(n);
    SubsetSize(chunks.Keys, Range(n) - {0});
    assert |chunks.Keys| == |chunks|;
  }

  lemma HopelessStays(maxFrame: nat, partial: Partials, s: Sent, k: nat)
    requires s.Valid(maxFrame) && 1 <= k < |s.parts| && Hopeless(partial, s, k)
    ensures var r := Receive(maxFrame, partial, WireOf(s)[k]); !r.reply.Frame? && Hopeless(r.partial, s, k + 1)
  {
    hide Receive, Collected, WireOf, Concat;
    ReceivePart(maxFrame, partial, s, k);
    var f := Joined(partial, s.id, |s.parts|);
    FewChunks(Extended(f, k, s.parts[k]).chunks, |s.parts|);
  }

  lemma {:induction false} NeverCompletes(maxFrame: nat, partial: Partials, s: Sent, k: nat)
    requires s.Valid(maxFrame) && 1 <= k <= |s.parts| && Hopeless(partial, s, k)
    ensures forall r :: r in Answers(maxFrame, partial, s, k) ==> !r.Frame?
    decreases |s.parts| - k
  {
    hide Receive, Hopeless;
    if k < |s.parts| {
      HopelessStays(maxFrame, partial, s, k);
      NeverCompletes(maxFrame, Receive(maxFrame, partial, WireOf(s)[k]).partial, s, k + 1);
    }
  }

  // ---- Room for a new frame ----

  lemma {:induction false} NewFrameComesBack(maxFrame: nat, partial: Partials, s: Sent, k: nat)
    requires s.Valid(maxFrame) && k < |s.parts|
    requires Joined(partial, s.id, |s.parts|) == Expected(s, Range(k))
    requires s.id !in partial ==> |partial| < MAX_PARTIAL_FRAMES
    ensures Frame(s.Frame()) in Answers(maxFrame, partial, s, k)
    decreases |s.parts| - k
  {
    hide Receive, Expected;
    ChunkIsAccepted(maxFrame, s, k, Range(k), partial);
    if k + 1 < |s.parts| {
      assert |s.parts| - 1 in Range(|s.parts|) && |s.parts| - 1 !in Range(k + 1);
      NewFrameComesBack(maxFrame, partial[s.id := Expected(s, Range(k + 1))], s, k + 1);
    }
  }

  // ---- What is left of an earlier frame under the same id ----

  /** What was held, and the first `k` chunks since. */
  function Mixed(f: PartialFrame, s: Sent, k: nat): PartialFrame
    requires k <= |s.parts|
  {
    PartialFrame(f.total, f.chunks + Parts(s, Range(k)), f.bytes + |Concat(s.parts[..k])|)
  }

  lemma MixedStep(f: PartialFrame, s: Sent, k: nat)
    requires k < |s.parts|
    ensures Extended(Mixed(f, s, k), k, s.parts[k]) == Mixed(f, s, k + 1)
    ensures forall i :: i in Mixed(f, s, k).chunks <==> i in f.chunks || 0 <= i < k
  {
    hide Concat;
    ConcatSnoc(s.parts[..k], s.parts[k]);
    assert s.parts[..k + 1] == s.parts[..k] + [s.parts[k]];
    assert Mixed(f, s, k + 1).chunks == Mixed(f, s, k).chunks[k := s.parts[k]];
  }

  lemma MixedParts(f: PartialFrame, s: Sent, j: nat)
    requires HeldFrom(f, j) && f.total == |s.parts|
    ensures var parts, chunks := s.parts[..j] + HeldParts(f, j), Mixed(f, s, j).chunks;
      forall i: nat :: i < |s.parts| ==> i in chunks && parts[i] == chunks[i]
  {
    hide Concat;
  }

  lemma MixedIsWhole(f: PartialFrame, s: Sent, j: nat)
    requires HeldFrom(f, j) && f.total == |s.parts|
    ensures Collected(Mixed(f, s, j).chunks, |s.parts|) == Frame(Concat(s.parts[..j]) + Concat(HeldParts(f, j)))
  {
    hide Concat, Join;
    var parts, chunks := s.parts[..j] + HeldParts(f, j), Mixed(f, s, j).chunks;
    MixedParts(f, s, j);
    JoinIsConcat(chunks, |s.parts|, parts);
    ConcatAppend(s.parts[..j], HeldParts(f, j));
  }

  lemma SameTail(s: Sent, j: nat, held: seq<byte>)
    requires j <= |s.parts|
    ensures Concat(s.parts[..j]) + held == s.Frame() <==> held == Concat(s.parts[j..])
  {
    ConcatAppend(s.parts[..j], s.parts[j..]);
    assert s.parts[..j] + s.parts[j..] == s.parts;
    var front := Concat(s.parts[..j]);
    assert (front + held)[|front|..] == held && s.Frame()[|front|..] == Concat(s.parts[j..]);
  }

  lemma {:induction false} HeldSize(f: PartialFrame, n: nat, j: nat)
    requires HeldFrom(f, j) && j <= n <= f.total
    ensures SumSizes(f.chunks, n) == |Concat(HeldParts(f, j)[..n - j])|
    decreases n
  {
    if n == j {
      NothingBelow(f, j, j);
    } else {
      HeldSize(f, n - 1, j);
      var held := HeldParts(f, j);
      ConcatSnoc(held[..n - 1 - j], held[n - 1 - j]);
      assert held[..n - j] == held[..n - 1 - j] + [held[n - 1 - j]];
    }
  }

  lemma {:induction false} NothingBelow(f: PartialFrame, n: nat, j: nat)
    requires HeldFrom(f, j) && n <= j
    ensures SumSizes(f.chunks, n) == 0
  {
    if n > 0 {
      NothingBelow(f, n - 1, j);
    }
  }

  /** A frame that is completed was within the limit all along. */
  lemma CompletedFits(maxFrame: nat, f: PartialFrame, s: Sent, k: nat, j: nat)
    requires s.Valid(maxFrame) && BoundedFrame(maxFrame, f) && CompletesAt(f, s, j) && k <= j
    ensures f.bytes + |Concat(s.parts[..k])| <= maxFrame
  {
    hide SumSizes, Concat;
    var held := HeldParts(f, j);
    HeldSize(f, f.total, j);
    assert held[..f.total - j] == held;
    assert f.bytes == |Concat(held)|;
    SameTail(s, j, Concat(held));
    assert |Concat(s.parts[..j])| + |Concat(held)| == |s.Frame()|;
    ConcatAppend(s.parts[..k], s.parts[k..j]);
    assert s.parts[..k] + s.parts[k..j] == s.parts[..j];
  }

  lemma FrameShape(maxFrame: nat, f: PartialFrame)
    requires BoundedFrame(maxFrame, f)
    ensures (forall i :: i in f.chunks ==> 0 <= i < f.total) && exists i :: i in f.chunks
  {
  }

  lemma FullMeansHeldFrom(maxFrame: nat, f: PartialFrame, s: Sent, k: nat)
    requires BoundedFrame(maxFrame, f) && f.total == |s.parts| && k < |s.parts|
    requires forall i :: 0 <= i <= k ==> i !in f.chunks
    ensures k + 1 < |s.parts|
    ensures |Mixed(f, s, k + 1).chunks| == |s.parts| <==> HeldFrom(f, k + 1)
  {
    hide BoundedFrame, HeldFrom, Mixed;
    FrameShape(maxFrame, f);
    var chunks := Mixed(f, s, k + 1).chunks;
    MixedStep(f, s, k);
    MixedKeys(f, s, k + 1);
    FullRange(chunks.Keys, |s.parts|);
    assert |chunks.Keys| == |chunks|;
    CoversIff(f, chunks.Keys, k + 1);
  }

  lemma MixedKeys(f: PartialFrame, s: Sent, k: nat)
    requires k <= |s.parts| && forall i :: i in f.chunks ==> 0 <= i < |s.parts|
    ensures forall i: nat :: i in Mixed(f, s, k).chunks.Keys <==> i in f.chunks || i < k
    ensures Mixed(f, s, k).chunks.Keys <= Range(|s.parts|)
  {
    hide Concat;
  }

  lemma CoversIff(f: PartialFrame, keys: set<nat>, k: nat)
    requires 0 < k < f.total && forall i: nat :: i in keys <==> i in f.chunks || i < k
    requires (forall i :: 0 <= i < k ==> i !in f.chunks) && forall i :: i in f.chunks ==> 0 <= i < f.total
    ensures keys == Range(f.total) <==> HeldFrom(f, k)
  {
    if keys == Range(f.total) {
      forall i: nat | i < f.total ensures i in f.chunks <==> k <= i {
        assert i in Range(f.total);
      }
    }
  }

  lemma RemovedIsHopeless(partial: Partials, s: Sent, k: nat)
    ensures Hopeless(partial - {s.id}, s, k)
  {
  }

  lemma OverTheLimit(maxFrame: nat, f: PartialFrame, s: Sent, k: nat)
    requires s.Valid(maxFrame) && BoundedFrame(maxFrame, f) && k <= |s.parts|
    requires f.bytes + |Concat(s.parts[..k])| > maxFrame
    ensures !Completable(f, s, k)
  {
    hide BoundedFrame, CompletesAt, Concat;
    if j: nat :| j >= k && CompletesAt(f, s, j) {
      CompletedFits(maxFrame, f, s, k, j);
    }
  }

  lemma MixedBytes(f: PartialFrame, s: Sent, k: nat)
    requires k <= |s.parts|
    ensures Mixed(f, s, k).bytes == f.bytes + |Concat(s.parts[..k])| && Mixed(f, s, k).total == f.total
  {
  }

  lemma HeldBehind(f: PartialFrame, s: Sent, k: nat)
    requires k in f.chunks && k < f.total
    ensures !Completable(f, s, k + 1)
  {
  }

  lemma HeldFromOnce(f: PartialFrame, i: nat, j: nat)
    requires HeldFrom(f, i) && HeldFrom(f, j)
    ensures i == j
  {
    var first := if i < j then i else j;
    assert first in f.chunks <==> i <= first;
    assert first in f.chunks <==> j <= first;
  }

  lemma OnlyHere(f: PartialFrame, s: Sent, j: nat)
    requires HeldFrom(f, j) && f.total == |s.parts|
    ensures Completable(f, s, j) <==> Concat(HeldParts(f, j)) == Concat(s.parts[j..])
  {
    hide HeldFrom, HeldParts, Concat;
    assert CompletesAt(f, s, j) <==> Concat(HeldParts(f, j)) == Concat(s.parts[j..]);
    if i: nat :| i >= j && CompletesAt(f, s, i) {
      HeldFromOnce(f, i, j);
    }
  }

  lemma NotHere(f: PartialFrame, s: Sent, j: nat)
    requires !HeldFrom(f, j)
    ensures Completable(f, s, j) <==> Completable(f, s, j + 1)
  {
    hide HeldFrom, HeldParts, Concat;
  }

  /** What the `k`-th chunk does to what was held and the chunks before it. */
  lemma LeftoverStep(maxFrame: nat, partial: Partials, s: Sent, f: PartialFrame, k: nat)
    requires s.Valid(maxFrame) && BoundedFrame(maxFrame, f) && f.total == |s.parts| && k < |s.parts|
    requires s.id in partial && partial[s.id] == Mixed(f, s, k)
    requires forall i :: 0 <= i < k ==> i !in f.chunks
    ensures var r := Receive(maxFrame, partial, WireOf(s)[k]);
      if k !in f.chunks && Mixed(f, s, k + 1).bytes <= maxFrame && !HeldFrom(f, k + 1) then
        && r.reply == Pending && s.id in r.partial && r.partial[s.id] == Mixed(f, s, k + 1)
        && k + 1 < |s.parts| && (Completable(f, s, k + 1) <==> Completable(f, s, k + 2))
      else Hopeless(r.partial, s, k + 1) && (r.reply == Frame(s.Frame()) <==> Completable(f, s, k + 1))
  {
    hide Receive, Accept, Extended, BoundedFrame, Completable, Concat, Collected, Mixed, HeldFrom, HeldParts;
    hide Hopeless;
    RemovedIsHopeless(partial, s, k + 1);
    ReceivePart(maxFrame, partial, s, k);
    MixedStep(f, s, k);
    MixedBytes(f, s, k);
    MixedBytes(f, s, k + 1);
    AcceptHeld(maxFrame, partial, s.id, k, |s.parts|, s.parts[k]);
    if k in f.chunks {
      HeldBehind(f, s, k);
    } else {
      FullMeansHeldFrom(maxFrame, f, s, k);
      if Mixed(f, s, k + 1).bytes > maxFrame {
        OverTheLimit(maxFrame, f, s, k + 1);
      } else if HeldFrom(f, k + 1) {
        MixedIsWhole(f, s, k + 1);
        SameTail(s, k + 1, Concat(HeldParts(f, k + 1)));
        OnlyHere(f, s, k + 1);
      } else {
        NotHere(f, s, k + 1);
      }
    }
  }

  /** The answers to the rest of a transmission, with the first `k` chunks added to what was held. */
  lemma {:induction false} LeftoverIff(maxFrame: nat, partial: Partials, s: Sent, f: PartialFrame, k: nat)
    requires s.Valid(maxFrame) && BoundedFrame(maxFrame, f) && f.total == |s.parts| && k < |s.parts|
    requires s.id in partial && partial[s.id] == Mixed(f, s, k)
    requires forall i :: 0 <= i < k ==> i !in f.chunks
    ensures Frame(s.Frame()) in Answers(maxFrame, partial, s, k) <==> Completable(f, s, k + 1)
    decreases |s.parts| - k
  {
    hide Receive, BoundedFrame, Completable, Concat, Mixed, HeldFrom, Hopeless;
    LeftoverStep(maxFrame, partial, s, f, k);
    var r := Receive(maxFrame, partial, WireOf(s)[k]);
    if k !in f.chunks && Mixed(f, s, k + 1).bytes <= maxFrame && !HeldFrom(f, k + 1) {
      LeftoverIff(maxFrame, r.partial, s, f, k + 1);
    } else {
      NeverCompletes(maxFrame, r.partial, s, k + 1);
    }
  }

  /** From any state within the decoder's bounds, a frame sent in order comes back exactly when its
      id is free and fewer than four frames are held, or what is held under its id completes it. */
  lemma {:induction false} InOrderComesBackIff(maxFrame: nat, partial: Partials, s: Sent)
    requires Bounded(maxFrame, partial) && s.Valid(maxFrame)
    ensures ComesBack(maxFrame, partial, s)
       <==> if s.id in partial then Completable(partial[s.id], s, 1)
            else |partial| < 4
  {
    hide BoundedFrame, Receive, Completable, ComesBack;
    if s.id in partial {
      var f := partial[s.id];
      if f.total == |s.parts| {
        assert Mixed(f, s, 0) == f;
        LeftoverIff(maxFrame, partial, s, f, 0);
        FromTheFirst(maxFrame, partial, s);
      } else {
        OtherTotal(f, s);
        FirstIsRefused(maxFrame, partial, s);
      }
    } else if |partial| < MAX_PARTIAL_FRAMES {
      NothingExpected(s);
      NewFrameComesBack(maxFrame, partial, s, 0);
      FromTheFirst(maxFrame, partial, s);
    } else {
      FirstIsRefused(maxFrame, partial, s);
    }
  }

  lemma FromTheFirst(maxFrame: nat, partial: Partials, s: Sent)
    requires |s.parts| <= MAX_CHUNKS
    ensures ComesBack(maxFrame, partial, s) <==> Frame(s.Frame()) in Answers(maxFrame, partial, s, 0)
  {
  }

  lemma FirstIsRefused(maxFrame: nat, partial: Partials, s: Sent)
    requires s.Valid(maxFrame)
    requires if s.id in partial then partial[s.id].total != |s.parts| else |partial| >= MAX_PARTIAL_FRAMES
    ensures !ComesBack(maxFrame, partial, s)
  {
    hide Receive;
    ReceivePart(maxFrame, partial, s, 0);
    var r := Receive(maxFrame, partial, WireOf(s)[0]);
    assert r.reply.Rejected?;
    NeverCompletes(maxFrame, r.partial, s, 1);
    assert Answers(maxFrame, partial, s, 0) == [r.reply] + Answers(maxFrame, r.partial, s, 1);
  }

  lemma OtherTotal(f: PartialFrame, s: Sent)
    requires f.total != |s.parts|
    ensures !Completable(f, s, 1)
  {
  }

  // ---- Four abandoned frames ----

  function RunFrom(maxFrame: nat, partial: Partials, inputs: seq<seq<byte>>): Partials {
    if inputs == [] then partial
    else Receive(maxFrame, RunFrom(maxFrame, partial, inputs[..|inputs| - 1]), inputs[|inputs| - 1]).partial
  }

  /** Once four frames are held, nothing of any other frame is taken in any more: not after any
      number of inputs, until one of those four is continued or broken. */
  lemma {:induction false} DeafForGood(maxFrame: nat, partial: Partials, inputs: seq<seq<byte>>, chunk: seq<byte>)
    requires |partial| == 4
    requires forall i :: 0 <= i < |inputs| && |inputs[i]| >= 6 ==> HeaderId(inputs[i]) !in partial
    requires |chunk| >= 6 ==> HeaderId(chunk) !in partial
    ensures RunFrom(maxFrame, partial, inputs) == partial
    ensures Receive(maxFrame, RunFrom(maxFrame, partial, inputs), chunk).reply.Rejected?
  {
    hide HeaderId, HeaderIndex, HeaderTotal;
    if inputs != [] {
      var n := |inputs| - 1;
      DeafForGood(maxFrame, partial, inputs[..n], inputs[n]);
    }
  }
}
