/** Exact delivery: the decoder returns encoded frames, however their chunks interleave.

    A list of transmissions is sent, and their chunks arrive in some order. The order is legal
    when no chunk is repeated and, whenever a frame opens, fewer than four others are open and
    none of them has its id. Under that condition alone every arrival is answered exactly:
    the frame on its last missing chunk, nothing before. */
module BleDelivery {
  import opened Common
  import opened BleFraming
  import opened BleReassembly

  /** One frame on its way: its id and the nonempty parts it was cut into. */
  datatype Sent = Sent(id: u16, parts: seq<seq<byte>>) {
    ghost predicate Valid(maxFrame: nat) {
      && 0 < |parts| <= 1024
      && (forall i :: 0 <= i < |parts| ==> parts[i] != [])
      && |Frame()| <= maxFrame
    }

    function Frame(): seq<byte> {
      Concat(parts)
    }
  }

  /** The chunks of a transmission, in index order. */
  function WireOf(s: Sent): seq<seq<byte>>
    requires |s.parts| <= MAX_CHUNKS
  {
    seq(|s.parts|, i requires 0 <= i < |s.parts| => ChunkBytes(s.id, i, |s.parts|, s.parts[i]))
  }

  // ---- The encoder's transmissions ----

  /** The encoder's cut of a frame. */
  function Cut(frame: seq<byte>, dataBytes: nat): seq<seq<byte>>
    requires dataBytes > 0
  {
    seq(ChunkCount(|frame|, dataBytes),
        i requires 0 <= i < ChunkCount(|frame|, dataBytes) => Payload(frame, dataBytes, i))
  }

  lemma {:induction false} CutJoins(frame: seq<byte>, dataBytes: nat, n: nat)
    requires dataBytes > 0 && n <= ChunkCount(|frame|, dataBytes)
    ensures Concat(Cut(frame, dataBytes)[..n]) == frame[..Offset(|frame|, dataBytes, n)]
  {
    if n > 0 {
      var parts := Cut(frame, dataBytes);
      CutJoins(frame, dataBytes, n - 1);
      OffsetGrows(|frame|, dataBytes, n - 1);
      assert parts[..n] == parts[..n - 1] + [parts[n - 1]];
      ConcatSnoc(parts[..n - 1], parts[n - 1]);
    }
  }

  /** Every frame the encoder accepts is a valid transmission: nonempty parts that join to the
      frame, each on the wire as the encoder writes it. */
  lemma {:induction false} EncodedFrameIsValid(maxFrame: nat, id: u16, frame: seq<byte>, dataBytes: nat)
    requires 0 < |frame| <= maxFrame && dataBytes > 0 && ChunkCount(|frame|, dataBytes) <= MAX_CHUNKS
    ensures var s := Sent(id, Cut(frame, dataBytes));
      && s.Valid(maxFrame) && s.Frame() == frame
      && EncodedChunks(id, frame, dataBytes) == WireOf(s)
  {
    var n, parts := ChunkCount(|frame|, dataBytes), Cut(frame, dataBytes);
    ChunkCountBounds(|frame|, dataBytes);
    CutJoins(frame, dataBytes, n);
    assert parts[..n] == parts;
    assert Offset(|frame|, dataBytes, n) == |frame|;
    forall i | 0 <= i < n
      ensures parts[i] != []
    {
      OffsetGrows(|frame|, dataBytes, i);
    }
  }

  // ---- Arrivals ----

  /** The arrival of one chunk of one transmission. */
  datatype Arrival = Arrival(sender: nat, index: nat)

  ghost predicate AllValid(maxFrame: nat, sent: seq<Sent>) {
    forall t :: 0 <= t < |sent| ==> sent[t].Valid(maxFrame)
  }

  predicate InRange(sent: seq<Sent>, a: Arrival) {
    a.sender < |sent| && a.index < |sent[a.sender].parts| <= MAX_CHUNKS
  }

  predicate AllInRange(sent: seq<Sent>, arrivals: seq<Arrival>) {
    forall k :: 0 <= k < |arrivals| ==> InRange(sent, arrivals[k])
  }

  function Wire(sent: seq<Sent>, a: Arrival): seq<byte>
    requires InRange(sent, a)
  {
    WireOf(sent[a.sender])[a.index]
  }

  /** For each transmission, the indices of the chunks that have arrived. */
  type Progress = seq<set<nat>>

  function Advance(got: Progress, a: Arrival): Progress
    requires a.sender < |got|
  {
    got[a.sender := got[a.sender] + {a.index}]
  }

  function ProgressOf(sent: seq<Sent>, arrivals: seq<Arrival>): (r: Progress)
    requires AllInRange(sent, arrivals)
    ensures |r| == |sent|
  {
    if arrivals == [] then seq(|sent|, t => {})
    else Advance(ProgressOf(sent, arrivals[..|arrivals| - 1]), arrivals[|arrivals| - 1])
  }

  predicate Complete(s: Sent, got: set<nat>) {
    got == Range(|s.parts|)
  }

  predicate Open(s: Sent, got: set<nat>) {
    got != {} && !Complete(s, got)
  }

  ghost predicate Fits(maxFrame: nat, sent: seq<Sent>, got: Progress) {
    && AllValid(maxFrame, sent)
    && |got| == |sent|
    && forall t :: 0 <= t < |sent| ==> got[t] <= Range(|sent[t].parts|)
  }

  function OpenSet(sent: seq<Sent>, got: Progress): set<nat>
    requires |got| == |sent|
  {
    set t | t in Range(|sent|) && Open(sent[t], got[t])
  }

  lemma OpenSetIs(sent: seq<Sent>, got: Progress)
    requires |got| == |sent|
    ensures forall t: nat :: t in OpenSet(sent, got) <==> t < |sent| && Open(sent[t], got[t])
  {
  }

  /** Whether chunk `a` may arrive after `got`. */
  predicate MayArrive(sent: seq<Sent>, got: Progress, a: Arrival)
    requires |got| == |sent|
  {
    && InRange(sent, a)
    && a.index !in got[a.sender]
    && (!Open(sent[a.sender], got[a.sender]) ==>
          && |OpenSet(sent, got)| < 4
          && forall t :: t in OpenSet(sent, got) ==> sent[t].id != sent[a.sender].id)
  }

  predicate Legal(sent: seq<Sent>, arrivals: seq<Arrival>) {
    && AllInRange(sent, arrivals)
    && forall k :: 0 <= k < |arrivals| ==> MayArrive(sent, ProgressOf(sent, arrivals[..k]), arrivals[k])
  }

  lemma {:induction false} ProgressFits(maxFrame: nat, sent: seq<Sent>, arrivals: seq<Arrival>)
    requires AllValid(maxFrame, sent) && AllInRange(sent, arrivals)
    ensures Fits(maxFrame, sent, ProgressOf(sent, arrivals))
  {
    if arrivals != [] {
      ProgressFits(maxFrame, sent, arrivals[..|arrivals| - 1]);
    }
  }

  // ---- What the decoder holds ----

  function Parts(s: Sent, got: set<nat>): map<nat, seq<byte>> {
    map i | i in got && i < |s.parts| :: s.parts[i]
  }

  function Expected(s: Sent, got: set<nat>): PartialFrame {
    PartialFrame(|s.parts|, Parts(s, got), SumSizes(Parts(s, got), |s.parts|))
  }

  ghost predicate HoldsOpen(sent: seq<Sent>, got: Progress, partial: Partials)
    requires |got| == |sent|
  {
    forall t :: 0 <= t < |sent| && Open(sent[t], got[t]) ==>
      sent[t].id in partial && partial[sent[t].id] == Expected(sent[t], got[t])
  }

  ghost predicate HoldsOnlyOpen(sent: seq<Sent>, got: Progress, partial: Partials)
    requires |got| == |sent|
  {
    forall id :: id in partial ==> exists t :: 0 <= t < |sent| && Open(sent[t], got[t]) && sent[t].id == id
  }

  /** No two open transmissions have one id. */
  ghost predicate Distinct(sent: seq<Sent>, got: Progress)
    requires |got| == |sent|
  {
    forall t, u :: 0 <= t < u < |sent| && Open(sent[t], got[t]) && Open(sent[u], got[u]) ==>
      sent[t].id != sent[u].id
  }

  /** The decoder holds exactly the open transmissions, each with exactly what arrived. */
  ghost predicate Mirrors(sent: seq<Sent>, got: Progress, partial: Partials)
    requires |got| == |sent|
  {
    HoldsOpen(sent, got, partial) && HoldsOnlyOpen(sent, got, partial) && Distinct(sent, got)
  }

  lemma {:induction false} PartsFit(s: Sent, got: set<nat>, n: nat)
    requires n <= |s.parts|
    ensures SumSizes(Parts(s, got), n) <= |Concat(s.parts[..n])|
  {
    if n > 0 {
      PartsFit(s, got, n - 1);
      ConcatSnoc(s.parts[..n - 1], s.parts[n - 1]);
      assert s.parts[..n] == s.parts[..n - 1] + [s.parts[n - 1]];
    }
  }

  lemma NothingExpected(s: Sent)
    ensures Expected(s, {}) == PartialFrame(|s.parts|, map[], 0)
  {
    assert Parts(s, {}) == map[];
    EmptySum(|s.parts|);
  }

  lemma PartsGrow(s: Sent, got: set<nat>, index: nat)
    requires index < |s.parts| && index !in got && got <= Range(|s.parts|)
    ensures Parts(s, got + {index}) == Parts(s, got)[index := s.parts[index]]
    ensures index !in Parts(s, got)
    ensures |Parts(s, got + {index})| == |s.parts| <==> Complete(s, got + {index})
  {
    var more := Parts(s, got + {index});
    assert more.Keys == got + {index} && |more.Keys| == |more|;
    FullRange(more.Keys, |s.parts|);
  }

  lemma OneMorePart(s: Sent, got: set<nat>, index: nat)
    requires index < |s.parts| && index !in got && got <= Range(|s.parts|)
    ensures Extended(Expected(s, got), index, s.parts[index]) == Expected(s, got + {index})
    ensures Expected(s, got + {index}).bytes <= |s.Frame()|
    ensures |Expected(s, got + {index}).chunks| == |s.parts| <==> Complete(s, got + {index})
  {
    hide Parts, SumSizes, Range, Concat, Complete;
    PartsGrow(s, got, index);
    SumSizesInsert(Parts(s, got), |s.parts|, index, s.parts[index]);
    PartsFit(s, got + {index}, |s.parts|);
    assert s.parts[..|s.parts|] == s.parts;
  }

  /** The decoder's answer to one chunk of a frame it holds the earlier arrivals of. */
  lemma ChunkIsAccepted(maxFrame: nat, s: Sent, index: nat, got: set<nat>, partial: Partials)
    requires s.Valid(maxFrame) && index < |s.parts| && index !in got && got <= Range(|s.parts|)
    requires Joined(partial, s.id, |s.parts|) == Expected(s, got)
    requires s.id !in partial ==> |partial| < MAX_PARTIAL_FRAMES
    ensures Receive(maxFrame, partial, WireOf(s)[index])
         == if Complete(s, got + {index}) then Received(partial - {s.id}, Frame(s.Frame()))
            else Received(partial[s.id := Expected(s, got + {index})], Pending)
  {
    hide Receive, Accept, Parts, SumSizes, Range, Concat, Collected, Joined;
    hide ChunkBytes, HeaderId, HeaderIndex, HeaderTotal;
    var chunk := WireOf(s)[index];
    ChunkBytesRead(s.id, index, |s.parts|, s.parts[index]);
    OneMorePart(s, got, index);
    PartsGrow(s, got, index);
    WholeIsCollected(s);
    ReceiveCases(maxFrame, partial, chunk);
    assert PartialFrame(|s.parts|, Parts(s, got)[index := s.parts[index]], Expected(s, got).bytes + |s.parts[index]|)
        == Expected(s, got + {index});
  }

  lemma WholeIsCollected(s: Sent)
    ensures Collected(Parts(s, Range(|s.parts|)), |s.parts|) == Frame(s.Frame())
  {
    JoinIsConcat(Parts(s, Range(|s.parts|)), |s.parts|, s.parts);
  }

  /** Holding fewer than four open transmissions means holding fewer than four ids. */
  lemma {:induction false} FewIds(sent: seq<Sent>, open: set<nat>, ids: set<u16>)
    requires open <= Range(|sent|)
    requires forall id :: id in ids ==> exists t :: t in open && sent[t].id == id
    ensures |ids| <= |open|
    decreases |open|
  {
    if open == {} {
      assert ids == {};
    } else {
      var t :| t in open;
      var rest := ids - {sent[t].id};
      forall id | id in rest
        ensures exists u :: u in open - {t} && sent[u].id == id
      {
        var u :| u in open && sent[u].id == id;
        assert u in open - {t};
      }
      FewIds(sent, open - {t}, rest);
      SubsetSize(rest, ids);
      assert ids <= rest + {sent[t].id};
      SubsetSize(ids, rest + {sent[t].id});
    }
  }

  /** The decoder has room for the frame a chunk belongs to and holds what came before. */
  lemma OpeningIsHeld(maxFrame: nat, sent: seq<Sent>, got: Progress, a: Arrival, partial: Partials)
    requires Fits(maxFrame, sent, got) && Mirrors(sent, got, partial)
    requires MayArrive(sent, got, a)
    ensures var s := sent[a.sender];
      && Joined(partial, s.id, |s.parts|) == Expected(s, got[a.sender])
      && (s.id !in partial ==> |partial| < MAX_PARTIAL_FRAMES)
  {
    hide Expected, Range, SumSizes;
    var s := sent[a.sender];
    if !Open(s, got[a.sender]) {
      var open := OpenSet(sent, got);
      forall id | id in partial
        ensures id != s.id && exists t :: t in open && sent[t].id == id
      {
        var t :| 0 <= t < |sent| && Open(sent[t], got[t]) && sent[t].id == id;
        assert t in open;
      }
      FewIds(sent, open, partial.Keys);
      assert |partial.Keys| == |partial|;
      assert a.index in Range(|s.parts|);
      NothingExpected(s);
    }
  }

  /** No other open transmission has the id of one that may arrive. */
  lemma OthersDiffer(sent: seq<Sent>, got: Progress, a: Arrival, t: nat)
    requires |got| == |sent| && MayArrive(sent, got, a)
    requires Distinct(sent, got)
    requires t < |sent| && t != a.sender && Open(sent[t], got[t])
    ensures sent[t].id != sent[a.sender].id
  {
    hide OpenSet;
    OpenSetIs(sent, got);
    if !Open(sent[a.sender], got[a.sender]) {
      assert t in OpenSet(sent, got);
    }
  }

  /** What the decoder holds once the frame of the arrival is closed or extended. */
  ghost predicate NextHeld(s: Sent, now: set<nat>, partial: Partials, next: Partials) {
    next == if Complete(s, now) then partial - {s.id} else partial[s.id := Expected(s, now)]
  }

  lemma NextHoldsOpen(sent: seq<Sent>, got: Progress, a: Arrival, partial: Partials, next: Partials)
    requires |got| == |sent| && MayArrive(sent, got, a) && Distinct(sent, got)
    requires HoldsOpen(sent, got, partial) && NextHeld(sent[a.sender], got[a.sender] + {a.index}, partial, next)
    ensures HoldsOpen(sent, Advance(got, a), next)
  {
    hide Expected, Range, OpenSet, MayArrive, Distinct;
    InRangeOfArrival(sent, got, a);
    var after := Advance(got, a);
    forall t | 0 <= t < |sent| && Open(sent[t], after[t])
      ensures sent[t].id in next && next[sent[t].id] == Expected(sent[t], after[t])
    {
      if t != a.sender {
        OthersDiffer(sent, got, a, t);
      }
    }
  }

  lemma InRangeOfArrival(sent: seq<Sent>, got: Progress, a: Arrival)
    requires |got| == |sent| && MayArrive(sent, got, a)
    ensures InRange(sent, a) && a.index !in got[a.sender]
  {
  }

  lemma NextHoldsOnlyOpen(sent: seq<Sent>, got: Progress, a: Arrival, partial: Partials, next: Partials)
    requires |got| == |sent| && MayArrive(sent, got, a)
    requires HoldsOnlyOpen(sent, got, partial) && NextHeld(sent[a.sender], got[a.sender] + {a.index}, partial, next)
    ensures HoldsOnlyOpen(sent, Advance(got, a), next)
  {
    hide Expected, Range, OpenSet, MayArrive, Complete;
    InRangeOfArrival(sent, got, a);
    var s, after := sent[a.sender], Advance(got, a);
    assert a.index in after[a.sender];
    forall id | id in next
      ensures exists t :: 0 <= t < |sent| && Open(sent[t], after[t]) && sent[t].id == id
    {
      if id == s.id {
        assert Open(s, after[a.sender]);
      } else {
        var t :| 0 <= t < |sent| && Open(sent[t], got[t]) && sent[t].id == id;
        assert after[t] == got[t];
      }
    }
  }

  lemma NextDistinct(sent: seq<Sent>, got: Progress, a: Arrival)
    requires |got| == |sent| && MayArrive(sent, got, a) && Distinct(sent, got)
    ensures Distinct(sent, Advance(got, a))
  {
    hide Range, OpenSet, MayArrive;
    InRangeOfArrival(sent, got, a);
    var after := Advance(got, a);
    forall t, u | 0 <= t < u < |sent| && Open(sent[t], after[t]) && Open(sent[u], after[u])
      ensures sent[t].id != sent[u].id
    {
      if t == a.sender {
        OthersDiffer(sent, got, a, u);
      } else if u == a.sender {
        OthersDiffer(sent, got, a, t);
      }
    }
  }

  /** Closing or extending the frame of the arrival keeps the mirror. */
  lemma NextMirror(sent: seq<Sent>, got: Progress, a: Arrival, partial: Partials, next: Partials)
    requires |got| == |sent| && Mirrors(sent, got, partial) && MayArrive(sent, got, a)
    requires NextHeld(sent[a.sender], got[a.sender] + {a.index}, partial, next)
    ensures Mirrors(sent, Advance(got, a), next)
  {
    hide HoldsOpen, HoldsOnlyOpen, Distinct, NextHeld, MayArrive;
    InRangeOfArrival(sent, got, a);
    NextHoldsOpen(sent, got, a, partial, next);
    NextHoldsOnlyOpen(sent, got, a, partial, next);
    NextDistinct(sent, got, a);
  }

  /** One legal arrival: the decoder goes on mirroring what arrived, and answers with the
      frame exactly when this was its last missing chunk. */
  lemma {:induction false} ArrivalIsAnswered(maxFrame: nat, sent: seq<Sent>, got: Progress, a: Arrival,
                                             partial: Partials)
    requires Fits(maxFrame, sent, got) && Mirrors(sent, got, partial)
    requires MayArrive(sent, got, a)
    ensures var r := Receive(maxFrame, partial, Wire(sent, a));
      && Mirrors(sent, Advance(got, a), r.partial)
      && r.reply == if Complete(sent[a.sender], got[a.sender] + {a.index})
                    then Frame(sent[a.sender].Frame()) else Pending
  {
    OpeningIsHeld(maxFrame, sent, got, a, partial);
    ChunkIsAccepted(maxFrame, sent[a.sender], a.index, got[a.sender], partial);
    NextMirror(sent, got, a, partial, Receive(maxFrame, partial, Wire(sent, a)).partial);
  }

  // ---- Runs ----

  function Wires(sent: seq<Sent>, arrivals: seq<Arrival>): seq<seq<byte>>
    requires AllInRange(sent, arrivals)
  {
    seq(|arrivals|, k requires 0 <= k < |arrivals| => Wire(sent, arrivals[k]))
  }

  lemma NothingMirrors(sent: seq<Sent>)
    ensures Mirrors(sent, ProgressOf(sent, []), map[])
  {
  }

  lemma NothingReceived(maxFrame: nat)
    ensures After(maxFrame, []) == map[]
  {
  }

  lemma {:induction false} LegalRunMirrors(maxFrame: nat, sent: seq<Sent>, arrivals: seq<Arrival>, k: nat)
    requires AllValid(maxFrame, sent) && Legal(sent, arrivals) && k <= |arrivals|
    ensures Fits(maxFrame, sent, ProgressOf(sent, arrivals[..k]))
    ensures Mirrors(sent, ProgressOf(sent, arrivals[..k]), After(maxFrame, Wires(sent, arrivals)[..k]))
  {
    hide Receive, Wire, Mirrors, Fits, MayArrive, After, AllValid, InRange, Complete;
    ProgressFits(maxFrame, sent, arrivals[..k]);
    if k == 0 {
      NothingMirrors(sent);
      NothingReceived(maxFrame);
    } else {
      var wires := Wires(sent, arrivals);
      LegalRunMirrors(maxFrame, sent, arrivals, k - 1);
      AfterNext(maxFrame, wires, k - 1);
      assert arrivals[..k][..k - 1] == arrivals[..k - 1];
      ArrivalIsAnswered(maxFrame, sent, ProgressOf(sent, arrivals[..k - 1]), arrivals[k - 1],
                        After(maxFrame, wires[..k - 1]));
    }
  }

  /** The delivery theorem. In any legal order every arrival is answered with the whole frame
      exactly when it completes it, and with nothing otherwise. */
  lemma {:induction false} LegalRunsDeliver(maxFrame: nat, sent: seq<Sent>, arrivals: seq<Arrival>, k: nat)
    requires AllValid(maxFrame, sent) && Legal(sent, arrivals) && k < |arrivals|
    ensures ReplyAt(maxFrame, Wires(sent, arrivals), k)
         == var t := arrivals[k].sender;
            if Complete(sent[t], ProgressOf(sent, arrivals[..k + 1])[t]) then Frame(sent[t].Frame()) else Pending
  {
    hide Receive, Wire, Mirrors, Fits, MayArrive, Complete, After, AllValid;
    LegalRunMirrors(maxFrame, sent, arrivals, k);
    assert arrivals[..k + 1][..k] == arrivals[..k];
    ArrivalIsAnswered(maxFrame, sent, ProgressOf(sent, arrivals[..k]), arrivals[k],
                      After(maxFrame, Wires(sent, arrivals)[..k]));
  }

  /** A legal run that completes every transmission leaves the decoder empty. */
  lemma {:induction false} LegalRunsEndEmpty(maxFrame: nat, sent: seq<Sent>, arrivals: seq<Arrival>)
    requires AllValid(maxFrame, sent) && Legal(sent, arrivals)
    requires forall t :: 0 <= t < |sent| ==> Complete(sent[t], ProgressOf(sent, arrivals)[t])
    ensures After(maxFrame, Wires(sent, arrivals)) == map[]
  {
    LegalRunMirrors(maxFrame, sent, arrivals, |arrivals|);
    assert arrivals[..|arrivals|] == arrivals;
    assert Wires(sent, arrivals)[..|arrivals|] == Wires(sent, arrivals);
    assert After(maxFrame, Wires(sent, arrivals)).Keys == {};
  }

  // ---- Any order of at most four frames ----

  lemma {:induction false} ProgressIsArrivals(sent: seq<Sent>, arrivals: seq<Arrival>, a: Arrival)
    requires AllInRange(sent, arrivals) && a.sender < |sent|
    ensures a.index in ProgressOf(sent, arrivals)[a.sender] <==> a in arrivals
  {
    if arrivals != [] {
      var n := |arrivals| - 1;
      ProgressIsArrivals(sent, arrivals[..n], a);
      assert arrivals == arrivals[..n] + [arrivals[n]];
    }
  }

  predicate NoRepeats(arrivals: seq<Arrival>) {
    forall i, j :: 0 <= i < j < |arrivals| ==> arrivals[i] != arrivals[j]
  }

  /** Whether every chunk of transmission `t` is among the arrivals. */
  predicate AllArrived(sent: seq<Sent>, arrivals: seq<Arrival>, t: nat)
    requires t < |sent|
  {
    forall i: nat :: i < |sent[t].parts| ==> Arrival(t, i) in arrivals
  }

  lemma CompleteMeansAllArrived(maxFrame: nat, sent: seq<Sent>, arrivals: seq<Arrival>, t: nat)
    requires AllValid(maxFrame, sent) && AllInRange(sent, arrivals) && t < |sent|
    ensures Complete(sent[t], ProgressOf(sent, arrivals)[t]) <==> AllArrived(sent, arrivals, t)
  {
    ProgressFits(maxFrame, sent, arrivals);
    forall i: nat
      ensures i in ProgressOf(sent, arrivals)[t] <==> Arrival(t, i) in arrivals
    {
      ProgressIsArrivals(sent, arrivals, Arrival(t, i));
    }
    var got, all := ProgressOf(sent, arrivals)[t], Range(|sent[t].parts|);
    assert got == all <==> forall i :: i in all ==> i in got;
  }

  lemma FewOthersOpen(sent: seq<Sent>, got: Progress, t: nat)
    requires |got| == |sent| && t < |sent|
    ensures !Open(sent[t], got[t]) ==> t !in OpenSet(sent, got) && |OpenSet(sent, got)| < |sent|
    ensures forall u :: u in OpenSet(sent, got) ==> u < |sent|
  {
    var others := Range(|sent|) - {t};
    RangeSize(|sent|);
    if !Open(sent[t], got[t]) {
      assert OpenSet(sent, got) <= others;
      SubsetSize(OpenSet(sent, got), others);
    }
  }

  lemma AnyOrderOfFourIsLegal(maxFrame: nat, sent: seq<Sent>, arrivals: seq<Arrival>)
    requires AllValid(maxFrame, sent) && |sent| <= 4
    requires forall t, u :: 0 <= t < u < |sent| ==> sent[t].id != sent[u].id
    requires AllInRange(sent, arrivals) && NoRepeats(arrivals)
    ensures Legal(sent, arrivals)
  {
    hide OpenSet, Open, ProgressOf;
    forall k | 0 <= k < |arrivals|
      ensures MayArrive(sent, ProgressOf(sent, arrivals[..k]), arrivals[k])
    {
      var a := arrivals[k];
      assert InRange(sent, a);
      ProgressIsArrivals(sent, arrivals[..k], a);
      FewOthersOpen(sent, ProgressOf(sent, arrivals[..k]), a.sender);
    }
  }

  /** At most four frames with distinct ids: every order and interleaving of their chunks
      delivers each frame on the arrival that completes it, and nothing on any other. Once
      every chunk of every frame has arrived, the decoder is empty. */
  lemma {:induction false} AnyOrderOfFourDelivers(maxFrame: nat, sent: seq<Sent>, arrivals: seq<Arrival>)
    requires AllValid(maxFrame, sent) && |sent| <= 4
    requires forall t, u :: 0 <= t < u < |sent| ==> sent[t].id != sent[u].id
    requires AllInRange(sent, arrivals) && NoRepeats(arrivals)
    ensures forall k :: 0 <= k < |arrivals| ==>
              InRange(sent, arrivals[k])
              && ReplyAt(maxFrame, Wires(sent, arrivals), k)
                 == if AllArrived(sent, arrivals[..k + 1], arrivals[k].sender)
                    then Frame(sent[arrivals[k].sender].Frame()) else Pending
    ensures (forall t :: 0 <= t < |sent| ==> AllArrived(sent, arrivals, t))
            ==> After(maxFrame, Wires(sent, arrivals)) == map[]
  {
    AnyOrderOfFourIsLegal(maxFrame, sent, arrivals);
    forall k | 0 <= k < |arrivals|
      ensures InRange(sent, arrivals[k])
      ensures ReplyAt(maxFrame, Wires(sent, arrivals), k)
           == if AllArrived(sent, arrivals[..k + 1], arrivals[k].sender)
              then Frame(sent[arrivals[k].sender].Frame()) else Pending
    {
      LegalRunsDeliver(maxFrame, sent, arrivals, k);
      CompleteMeansAllArrived(maxFrame, sent, arrivals[..k + 1], arrivals[k].sender);
    }
    if forall t :: 0 <= t < |sent| ==> AllArrived(sent, arrivals, t) {
      forall t | 0 <= t < |sent|
        ensures Complete(sent[t], ProgressOf(sent, arrivals)[t])
      {
        CompleteMeansAllArrived(maxFrame, sent, arrivals, t);
      }
      LegalRunsEndEmpty(maxFrame, sent, arrivals);
    }
  }

  // ---- One frame after another, through the id wrap ----

  /** The frames in a list of answers. */
  function Frames(replies: seq<Reply>): seq<seq<byte>> {
    if replies == [] then []
    else (if replies[0].Frame? then [replies[0].bytes] else []) + Frames(replies[1..])
  }

  /** The answers to `inputs` from a decoder holding `partial`. */
  function Replies(maxFrame: nat, partial: Partials, inputs: seq<seq<byte>>): seq<Reply>
    decreases |inputs|
  {
    if inputs == [] then []
    else
      var r := Receive(maxFrame, partial, inputs[0]);
      [r.reply] + Replies(maxFrame, r.partial, inputs[1..])
  }

  function Finally(maxFrame: nat, partial: Partials, inputs: seq<seq<byte>>): Partials
    decreases |inputs|
  {
    if inputs == [] then partial
    else Finally(maxFrame, Receive(maxFrame, partial, inputs[0]).partial, inputs[1..])
  }

  /** What an in-order receiver holds before chunk `from`. */
  function HeldBefore(s: Sent, from: nat): Partials {
    if from == 0 then map[] else map[s.id := Expected(s, Range(from))]
  }

  lemma HeldBeforeIs(s: Sent, from: nat, next: PartialFrame)
    ensures Joined(HeldBefore(s, from), s.id, |s.parts|) == Expected(s, Range(from))
    ensures HeldBefore(s, from) - {s.id} == map[]
    ensures HeldBefore(s, from)[s.id := next] == map[s.id := next]
    ensures s.id !in HeldBefore(s, from) ==> |HeldBefore(s, from)| == 0
  {
    assert Range(0) == {};
    hide Expected, Range;
    if from == 0 {
      NothingExpected(s);
      OneHeld(s.id, next, next);
    } else {
      OneHeld(s.id, Expected(s, Range(from)), next);
    }
  }

  lemma OneHeld(id: u16, frame: PartialFrame, next: PartialFrame)
    ensures var none: Partials := map[];
      map[id := frame] - {id} == none && none[id := frame] == map[id := frame] && none - {id} == none
    ensures map[id := frame][id := next] == map[id := next]
  {
  }

  lemma InOrderChunk(maxFrame: nat, s: Sent, from: nat)
    requires s.Valid(maxFrame) && from < |s.parts|
    ensures Receive(maxFrame, HeldBefore(s, from), WireOf(s)[from])
         == if from + 1 == |s.parts| then Received(map[], Frame(s.Frame()))
            else Received(HeldBefore(s, from + 1), Pending)
  {
    hide Receive, WireOf, Expected;
    assert Range(from) + {from} == Range(from + 1);
    assert from !in Range(from) && Range(from) <= Range(|s.parts|);
    RangeSize(from + 1);
    RangeSize(|s.parts|);
    HeldBeforeIs(s, from, Expected(s, Range(from + 1)));
    assert HeldBefore(s, from + 1) == map[s.id := Expected(s, Range(from + 1))];
    hide Range, HeldBefore, Joined;
    ChunkIsAccepted(maxFrame, s, from, Range(from), HeldBefore(s, from));
    assert Complete(s, Range(from + 1)) <==> from + 1 == |s.parts|;
  }

  /** The rest of a frame, in order, to a decoder holding exactly the chunks before. */
  lemma {:induction false} RestOfFrame(maxFrame: nat, s: Sent, from: nat)
    requires s.Valid(maxFrame) && from < |s.parts|
    ensures Frames(Replies(maxFrame, HeldBefore(s, from), WireOf(s)[from..])) == [s.Frame()]
    ensures Finally(maxFrame, HeldBefore(s, from), WireOf(s)[from..]) == map[]
    decreases |s.parts| - from
  {
    hide Receive, HeldBefore, Concat;
    var rest, tail := WireOf(s)[from..], WireOf(s)[from + 1..];
    InOrderChunk(maxFrame, s, from);
    assert rest[0] == WireOf(s)[from] && rest[1..] == tail;
    var r := Receive(maxFrame, HeldBefore(s, from), rest[0]);
    assert Replies(maxFrame, HeldBefore(s, from), rest) == [r.reply] + Replies(maxFrame, r.partial, tail);
    if from + 1 == |s.parts| {
      assert tail == [];
    } else {
      RestOfFrame(maxFrame, s, from + 1);
    }
  }

  lemma {:induction false} RepliesAppend(maxFrame: nat, partial: Partials, a: seq<seq<byte>>, b: seq<seq<byte>>)
    ensures Replies(maxFrame, partial, a + b)
         == Replies(maxFrame, partial, a) + Replies(maxFrame, Finally(maxFrame, partial, a), b)
    ensures Finally(maxFrame, partial, a + b) == Finally(maxFrame, Finally(maxFrame, partial, a), b)
    decreases |a|
  {
    if a == [] {
      assert a + b == b;
    } else {
      assert (a + b)[1..] == a[1..] + b;
      RepliesAppend(maxFrame, Receive(maxFrame, partial, a[0]).partial, a[1..], b);
    }
  }

  lemma {:induction false} FramesAppend(a: seq<Reply>, b: seq<Reply>)
    ensures Frames(a + b) == Frames(a) + Frames(b)
  {
    if a == [] {
      assert a + b == b;
    } else {
      assert (a + b)[0] == a[0] && (a + b)[1..] == a[1..] + b;
      FramesAppend(a[1..], b);
      var first: seq<seq<byte>> := if a[0].Frame? then [a[0].bytes] else [];
      assert first + (Frames(a[1..]) + Frames(b)) == first + Frames(a[1..]) + Frames(b);
    }
  }

  /** One call of the encoder: a frame, and how much the connection carries in one value by then. */
  datatype Call = Call(frame: seq<byte>, attPayloadBytes: nat)

  predicate Accepted(maxFrame: nat, call: Call) {
    && 0 < |call.frame| <= maxFrame && call.attPayloadBytes > 6
    && ChunkCount(|call.frame|, call.attPayloadBytes - 6) <= 1024
  }

  /** What one encoder puts on the wire for a list of calls, its 16-bit counter at `first`. A call
      that is refused puts nothing there and takes no id. */
  function Stream(maxFrame: nat, first: u16, calls: seq<Call>): seq<seq<byte>>
    decreases |calls|
  {
    if calls == [] then []
    else if !Accepted(maxFrame, calls[0]) then Stream(maxFrame, first, calls[1..])
    else
      EncodedChunks(first, calls[0].frame, calls[0].attPayloadBytes - 6)
      + Stream(maxFrame, (first + 1) % 0x1_0000, calls[1..])
  }

  function AcceptedFrames(maxFrame: nat, calls: seq<Call>): seq<seq<byte>> {
    if calls == [] then []
    else (if Accepted(maxFrame, calls[0]) then [calls[0].frame] else []) + AcceptedFrames(maxFrame, calls[1..])
  }

  /** Frames sent one after another come back as the same list: any number of calls, each with its
      own payload size, refused ones left out, and any starting id, so through every wrap of the
      encoder's 16-bit counter. */
  lemma {:induction false} FramesInOrderDecode(maxFrame: nat, first: u16, calls: seq<Call>)
    ensures Frames(Replies(maxFrame, map[], Stream(maxFrame, first, calls))) == AcceptedFrames(maxFrame, calls)
    ensures Finally(maxFrame, map[], Stream(maxFrame, first, calls)) == map[]
    decreases |calls|
  {
    hide Receive, Cut, WireOf, EncodedChunks, Concat, ChunkCount;
    if calls != [] {
      var frame, dataBytes := calls[0].frame, calls[0].attPayloadBytes - HEADER_BYTES;
      if Accepted(maxFrame, calls[0]) {
        var s := Sent(first, Cut(frame, dataBytes));
        EncodedFrameIsValid(maxFrame, first, frame, dataBytes);
        var tail := Stream(maxFrame, (first + 1) % 0x1_0000, calls[1..]);
        RestOfFrame(maxFrame, s, 0);
        assert WireOf(s)[0..] == WireOf(s);
        RepliesAppend(maxFrame, map[], WireOf(s), tail);
        FramesAppend(Replies(maxFrame, map[], WireOf(s)), Replies(maxFrame, map[], tail));
        FramesInOrderDecode(maxFrame, (first + 1) % 0x1_0000, calls[1..]);
      } else {
        FramesInOrderDecode(maxFrame, first, calls[1..]);
        assert [] + AcceptedFrames(maxFrame, calls[1..]) == AcceptedFrames(maxFrame, calls[1..]);
      }
    }
  }
}
