/** How far disarming a code reaches, by a cancellation or by a posting: exactly to the connections
    that have not read it yet. */
module PairingCancel {
  import opened Common
  import opened DeviceStore
  import opened Pairing
  import opened PairingRuns
  import opened Text

  /** A connection that has read an armed code and has not ended. */
  predicate Underway(c: Config, n: nat) {
    n in c.connections && !c.connections[n].Finished? && c.connections[n].armed.Some?
  }

  /** The machine after a whole run. */
  function Final(events: seq<Event>): Config {
    At(events, |events|)
  }

  ghost predicate NoBeginning(events: seq<Event>) {
    forall k :: 0 <= k < |events| ==> !events[k].Began?
  }

  /** Nothing is armed, proposed or held, and no connection holds a code. */
  ghost predicate Quiet(c: Config) {
    && c.world.armed == None && c.world.proposal == None && c.world.held == None
    && forall n :: n in c.connections ==> !Underway(c, n)
  }

  lemma QuietStays(c: Config, e: Event)
    requires Quiet(c) && !e.Began?
    ensures Quiet(Step(c, e)) && Step(c, e).world.stored == c.world.stored
  {
    var next := Step(c, e);
    forall n | n in next.connections ensures !Underway(next, n) {
      if n in c.connections {
        assert !Underway(c, n);
      }
    }
  }

  lemma {:induction false} PrefixAt(events: seq<Event>, more: seq<Event>, k: nat)
    requires k <= |events|
    ensures At(events + more, k) == At(events, k)
  {
    hide Step;
    if k > 0 {
      PrefixAt(events, more, k - 1);
    }
  }

  lemma FinalNext(events: seq<Event>, e: Event)
    ensures Final(events + [e]) == Step(Final(events), e)
  {
    hide Step, At;
    StepAt(events + [e], |events|);
    PrefixAt(events, [e], |events|);
  }

  lemma RunGrows(events: seq<Event>, e: Event)
    requires Run(events) && Enabled(Final(events), e)
    ensures Run(events + [e])
  {
    hide Step, At, Enabled;
    forall k | 0 <= k < |events + [e]| ensures Enabled(At(events + [e], k), (events + [e])[k]) {
      PrefixAt(events, [e], k);
      if k < |events| {
        assert Enabled(At(events, k), events[k]);
      }
    }
  }

  lemma {:induction false} QuietForGood(events: seq<Event>, more: seq<Event>)
    requires Quiet(Final(events)) && NoBeginning(more)
    ensures Quiet(Final(events + more)) && Final(events + more).world.stored == Final(events).world.stored
  {
    hide Step, At, Quiet;
    if more == [] {
      assert events + more == events;
    } else {
      var n := |more| - 1;
      QuietForGood(events, more[..n]);
      assert events + more == events + more[..n] + [more[n]];
      FinalNext(events + more[..n], more[n]);
      QuietStays(Final(events + more[..n]), more[n]);
    }
  }

  /** The phone enrols in the code that was read. */
  predicate EnrolsIn(handshake: Handshake, code: Bootstrap) {
    && handshake.Completed? && handshake.intent == Some(Pair) && handshake.heard.Spoke?
    && handshake.heard.enrolment.purpose == code.purpose
  }

  lemma Enrolling(c: Config, n: nat, code: Bootstrap, handshake: Handshake, attemptId: nat)
    requires n in c.connections && c.connections[n].Identified? && c.connections[n].armed == Some(code)
    requires EnrolsIn(handshake, code)
    ensures Posting(c, Ended(n, handshake, attemptId))
         == Some(ProposalOf(attemptId, handshake.heard.enrolment, handshake))
  {
  }

  /** What the store would keep of an enrolment. */
  function RecordOf(handshake: Handshake): Device
    requires handshake.Completed? && handshake.heard.Spoke?
  {
    DeviceOf(ProposalOf(0, handshake.heard.enrolment, handshake))
  }

  /** A handshake that the connection can still complete, with an enrolment that the store takes. */
  predicate Offers(c: Config, n: nat, handshake: Handshake) {
    && Underway(c, n) && EnrolsIn(handshake, c.connections[n].armed.value)
    && !Conflicts(c.world.devices, handshake.deviceId, RecordOf(handshake))
    && match c.connections[n]
       case Started(_) =>
         Presents(handshake.deviceId, LookUp(c.world.knownPeers, handshake.deviceId), handshake)
       case Identified(_, claimed, known) => Presents(claimed, known, handshake)
       case Finished => false
  }

  /** Giving up on what is held, by quoting a code that it does not have. */
  lemma Clearing(events: seq<Event>) returns (clear: Event)
    requires Run(events)
    ensures !clear.Began? && Run(events + [clear])
    ensures Final(events + [clear]) == Final(events).(world := Final(events).world.(held := None))
  {
    hide At, Run, Install;
    var held := Final(events).world.held;
    var wrong := if held.Some? then held.value.verificationCode + "0" else "";
    assert held.Some? ==> |wrong| != |held.value.verificationCode|;
    clear := Confirmed(wrong, None, false);
    FinalNext(events, clear);
    RunGrows(events, clear);
  }

  /** Coming to the point of having looked the phone up. */
  lemma Identifying(events: seq<Event>, n: nat, handshake: Handshake) returns (more: seq<Event>)
    requires Run(events) && Offers(Final(events), n, handshake)
    ensures Run(events + more) && NoBeginning(more)
    ensures var c, c' := Final(events), Final(events + more);
      && n in c'.connections && c'.connections[n].Identified? && c'.connections[n].armed == c.connections[n].armed
      && Presents(c'.connections[n].claimed, c'.connections[n].known, handshake)
      && c' == c.(connections := c.connections[n := c'.connections[n]])
  {
    hide At, Run, Presents, Conflicts;
    var read := PeerRead(n, handshake.deviceId);
    more := if Final(events).connections[n].Started? then [read] else [];
    if more == [] {
      assert events + more == events;
    } else {
      RunGrows(events, read);
      FinalNext(events, read);
    }
  }

  /** From being looked up to being stored. */
  lemma Storing(before: seq<Event>, n: nat, handshake: Handshake) returns (more: seq<Event>, attemptId: nat)
    requires Run(before) && n in Final(before).connections && Final(before).world.held == None
    requires var conn := Final(before).connections[n];
      && conn.Identified? && conn.armed.Some? && EnrolsIn(handshake, conn.armed.value)
      && Presents(conn.claimed, conn.known, handshake)
    requires !Conflicts(Final(before).world.devices, handshake.deviceId, RecordOf(handshake))
    ensures Run(before + more) && NoBeginning(more) && attemptId !in Final(before).drawn
    ensures var c, p := Final(before), ProposalOf(attemptId, handshake.heard.enrolment, handshake);
      Final(before + more) == Config(Install(c.world.(armed := None, proposal := None), p, true),
                                     c.connections[n := Finished], c.drawn + {attemptId})
  {
    hide Posting, At, Run, ProposalOf, Presents, Conflicts, Inserted, Identities;
    attemptId := Fresh(Final(before).drawn);
    var ended, polled := Ended(n, handshake, attemptId), Polled;
    var p := ProposalOf(attemptId, handshake.heard.enrolment, handshake);
    var confirmed := Confirmed(p.verificationCode, None, true);
    SameRecord(attemptId, handshake);
    Enrolling(Final(before), n, Final(before).connections[n].armed.value, handshake, attemptId);
    RunGrows(before, ended);
    FinalNext(before, ended);
    RunGrows(before + [ended], polled);
    FinalNext(before + [ended], polled);
    RunGrows(before + [ended] + [polled], confirmed);
    FinalNext(before + [ended] + [polled], confirmed);
    more := [ended] + [polled] + [confirmed];
    assert before + [ended] + [polled] + [confirmed] == before + more;
  }

  lemma SameRecord(attemptId: nat, handshake: Handshake)
    requires handshake.Completed? && handshake.heard.Spoke?
    ensures var p := ProposalOf(attemptId, handshake.heard.enrolment, handshake);
      DeviceOf(p) == RecordOf(handshake) && p.deviceId == handshake.deviceId
  {
  }

  /** Whatever phone a connection under way can speak to, its enrolment can still be stored. */
  lemma UnderwayStores(events: seq<Event>, n: nat, handshake: Handshake)
    returns (more: seq<Event>, attemptId: nat)
    requires Run(events) && Offers(Final(events), n, handshake)
    ensures Run(events + more) && NoBeginning(more) && attemptId !in Final(events).drawn
    ensures var c, p := Final(events), ProposalOf(attemptId, handshake.heard.enrolment, handshake);
      Final(events + more) == Config(Install(c.world.(armed := None, proposal := None, held := None), p, true),
                                     c.connections[n := Finished], c.drawn + {attemptId})
  {
    hide Posting, At, Run, ProposalOf, Presents, Conflicts, Install, RecordOf;
    var clear := Clearing(events);
    var read := Identifying(events + [clear], n, handshake);
    var before := events + [clear] + read;
    var rest;
    rest, attemptId := Storing(before, n, handshake);
    more := [clear] + read + rest;
    assert before + rest == events + more;
  }

  // ---- Some phone can always be offered ----

  lemma {:induction false} LongerThanAll(taken: set<string>) returns (name: string)
    ensures name !in taken && 'c' in name && |name| > 0 && forall s :: s in taken ==> |s| < |name|
    decreases |taken|
  {
    if taken == {} {
      name := "c";
    } else {
      var s :| s in taken;
      name := LongerThanAll(taken - {s});
      assert forall x :: x in taken ==> x == s || x in taken - {s};
      if |name| <= |s| {
        name := s + "c";
      }
    }
  }

  function TakenIds(devices: Devices): set<string> {
    set d, i | d in devices && 0 <= i < |devices[d].credentials| :: devices[d].credentials[i].id
  }

  lemma FreshIdIsFree(devices: Devices, owner: string, device: Device)
    requires |device.credentials| == 1 && device.credentials[0].id !in TakenIds(devices)
    ensures !Conflicts(devices, owner, device)
  {
    forall d, o | d in devices && o in devices[d].credentials ensures o.id in TakenIds(devices) {
      var i :| 0 <= i < |devices[d].credentials| && devices[d].credentials[i] == o;
    }
  }

  lemma Offering(c: Config, n: nat) returns (handshake: Handshake)
    requires Underway(c, n)
    ensures Offers(c, n, handshake) && handshake.Completed? && handshake.heard.Spoke?
  {
    var conn := c.connections[n];
    var claimed := if conn.Started? then "phone" else conn.claimed;
    var known := if conn.Started? then LookUp(c.world.knownPeers, claimed) else conn.known;
    var id := LongerThanAll(TakenIds(c.world.devices));
    var enrolment := Enrolment("c", id, [4], conn.armed.value.purpose);
    PlainDecodes(enrolment, 'c', 'c');
    handshake := Completed(claimed, if known.Some? then known.value else [1], Some(Pair), Spoke(enrolment), "");
    FreshIdIsFree(c.world.devices, claimed, RecordOf(handshake));
  }

  lemma PlainDecodes(e: Enrolment, a: char, b: char)
    requires a in e.deviceName && a !in WHITE_SPACE && b in e.credentialId && b !in WHITE_SPACE
    requires 0 < |e.publicKey| <= 512
    ensures Decodes(e)
  {
  }

  /** After a cancellation, and with no new beginning, a device can still be stored exactly when
      some connection has read a code before the cancellation and has not ended. */
  lemma {:induction false} CancelRecallsIff(events: seq<Event>)
    requires Run(events) && events != [] && events[|events| - 1] == Cancelled
    ensures (exists more :: Run(events + more) && NoBeginning(more)
                            && Final(events + more).world.stored != Final(events).world.stored)
       <==> (exists n :: Underway(Final(events), n))
  {
    hide Run, At, Step, Quiet, Install, Offers;
    var c := Final(events);
    CancelledWorld(events);
    if n :| Underway(c, n) {
      var handshake := Offering(c, n);
      var more, attemptId := UnderwayStores(events, n, handshake);
      InstallTakes(c, n, handshake, attemptId);
      assert Final(events + more).world.stored != c.world.stored;
    } else {
      QuietWhenNoneUnderway(c);
      forall more | NoBeginning(more) ensures Final(events + more).world.stored == c.world.stored {
        QuietForGood(events, more);
      }
    }
  }

  lemma InstallTakes(c: Config, n: nat, handshake: Handshake, attemptId: nat)
    requires Offers(c, n, handshake)
    ensures var p := ProposalOf(attemptId, handshake.heard.enrolment, handshake);
      var idle := c.world.(armed := None, proposal := None, held := None);
      var taken := idle.(devices := Inserted(c.world.devices, handshake.deviceId, RecordOf(handshake)),
                         stored := c.world.stored + [p]);
      Install(idle, p, true) == Published(taken)
  {
    hide Conflicts, Inserted;
    SameRecord(attemptId, handshake);
  }

  lemma CancelledWorld(events: seq<Event>)
    requires events != [] && events[|events| - 1] == Cancelled
    ensures var w := Final(events).world; w.armed == None && w.proposal == None && w.held == None
  {
    StepAt(events, |events| - 1);
  }

  lemma QuietWhenNoneUnderway(c: Config)
    requires c.world.armed == None && c.world.proposal == None && c.world.held == None
    requires forall n :: !Underway(c, n)
    ensures Quiet(c)
  {
  }

  // ---- A code is not spent by a posting either ----

  function UnderwayIn(c: Config): (r: set<nat>)
    ensures forall n :: n in r <==> Underway(c, n)
  {
    set n | n in c.connections && Underway(c, n)
  }

  /** How many of these proposals were drawn later. */
  function Newer(stored: seq<Proposal>, drawn: set<nat>): nat {
    if stored == [] then 0
    else Newer(stored[..|stored| - 1], drawn) + New(Some(stored[|stored| - 1]), drawn)
  }

  function New(p: Option<Proposal>, drawn: set<nat>): nat {
    if p.Some? && p.value.attemptId !in drawn then 1 else 0
  }

  lemma NewerSnoc(stored: seq<Proposal>, p: Proposal, drawn: set<nat>)
    ensures Newer(stored + [p], drawn) == Newer(stored, drawn) + New(Some(p), drawn)
  {
    assert (stored + [p])[..|stored|] == stored;
  }

  lemma {:induction false} NoneNewer(stored: seq<Proposal>, drawn: set<nat>)
    requires forall i :: 0 <= i < |stored| ==> stored[i].attemptId in drawn
    ensures Newer(stored, drawn) == 0
  {
    if stored != [] {
      NoneNewer(stored[..|stored| - 1], drawn);
    }
  }

  /** The proposals drawn later, wherever they are, and the connections that can still post one. */
  function Chances(c: Config, drawn: set<nat>): nat {
    |UnderwayIn(c)| + New(c.world.proposal, drawn) + New(c.world.held, drawn) + Newer(c.world.stored, drawn)
  }

  lemma FewerUnderway(c: Config, e: Event)
    requires c.world.armed == None && Enabled(c, e) && !e.Began?
    ensures |UnderwayIn(Step(c, e))| + (if Posting(c, e).Some? then 1 else 0) <= |UnderwayIn(c)|
  {
    hide ProposalOf, Confirm;
    var next := Step(c, e);
    assert UnderwayIn(next) <= UnderwayIn(c);
    if Posting(c, e).Some? {
      assert e.connection in UnderwayIn(c) && e.connection !in UnderwayIn(next);
      SubsetSize(UnderwayIn(next), UnderwayIn(c) - {e.connection});
    } else {
      SubsetSize(UnderwayIn(next), UnderwayIn(c));
    }
  }

  lemma FewerElsewhere(c: Config, e: Event, drawn: set<nat>)
    requires !e.Began?
    ensures var w, w' := c.world, Step(c, e).world;
      New(w'.proposal, drawn) + New(w'.held, drawn) + Newer(w'.stored, drawn)
      <= New(w.proposal, drawn) + New(w.held, drawn) + Newer(w.stored, drawn) + if Posting(c, e).Some? then 1 else 0
  {
    hide Posting, Enabled, Confirm, Forget, Newer;
    if e.Confirmed? {
      ConfirmMoves(c.world, e.code, e.quoted, e.saved);
    } else if e.Forgot? {
      ForgetMoves(c.world, e.device, e.saved);
    }
    if c.world.held.Some? {
      NewerSnoc(c.world.stored, c.world.held.value, drawn);
    }
  }

  lemma ChancesOnlyFall(c: Config, e: Event, drawn: set<nat>)
    requires c.world.armed == None && Enabled(c, e) && !e.Began?
    ensures Step(c, e).world.armed == None && Chances(Step(c, e), drawn) <= Chances(c, drawn)
  {
    hide Enabled, Posting, Newer, New;
    FewerUnderway(c, e);
    FewerElsewhere(c, e, drawn);
  }

  lemma {:induction false} ChancesFall(events: seq<Event>, more: seq<Event>, drawn: set<nat>)
    requires Run(events + more) && NoBeginning(more) && Final(events).world.armed == None
    ensures Final(events + more).world.armed == None
    ensures Chances(Final(events + more), drawn) <= Chances(Final(events), drawn)
  {
    hide Step, At, Chances, Enabled;
    if more == [] {
      assert events + more == events;
    } else {
      var n := |more| - 1;
      var before := events + more[..n];
      assert events + more == before + [more[n]];
      RunStops(before, more[n]);
      ChancesFall(events, more[..n], drawn);
      FinalNext(before, more[n]);
      ChancesOnlyFall(Final(before), more[n], drawn);
    }
  }

  lemma RunStops(events: seq<Event>, e: Event)
    requires Run(events + [e])
    ensures Run(events) && Enabled(Final(events), e)
  {
    hide Step, At, Enabled;
    forall k | 0 <= k < |events| ensures Enabled(At(events, k), events[k]) {
      PrefixAt(events, [e], k);
      assert Enabled(At(events + [e], k), (events + [e])[k]);
    }
    PrefixAt(events, [e], |events|);
    assert Enabled(At(events + [e], |events|), (events + [e])[|events|]);
  }

  lemma NothingNewerYet(events: seq<Event>)
    requires Run(events)
    ensures var c := Final(events); Chances(c, c.drawn) == |UnderwayIn(c)| && Newer(c.world.stored, c.drawn) == 0
  {
    hide At, Run;
    var c := Final(events);
    StoredAtMostOnce(events, |events|);
    NoneNewer(c.world.stored, c.drawn);
  }

  /** With no new beginning, each connection under way can still have a device of its own stored. */
  lemma {:induction false} EachStores(events: seq<Event>, drawn: set<nat>, count: nat) returns (more: seq<Event>)
    requires Run(events) && drawn <= Final(events).drawn && count <= |UnderwayIn(Final(events))|
    ensures Run(events + more) && NoBeginning(more)
    ensures Newer(Final(events + more).world.stored, drawn) == Newer(Final(events).world.stored, drawn) + count
    ensures |Final(events + more).world.stored| == |Final(events).world.stored| + count
    decreases count
  {
    hide Run, At, Newer, Offers, Install, Identities, Inserted;
    if count == 0 {
      more := [];
      assert events + more == events;
    } else {
      var c := Final(events);
      var n :| n in UnderwayIn(c);
      var handshake := Offering(c, n);
      var first, attemptId := UnderwayStores(events, n, handshake);
      InstallTakes(c, n, handshake, attemptId);
      var after := Final(events + first);
      assert UnderwayIn(after) == UnderwayIn(c) - {n};
      NewerSnoc(c.world.stored, ProposalOf(attemptId, handshake.heard.enrolment, handshake), drawn);
      var rest := EachStores(events + first, drawn, count - 1);
      more := first + rest;
      assert events + first + rest == events + more;
    }
  }

  /** Once the code is no longer armed, whether a posting or a cancellation disarmed it, and with no
      new beginning, just so many later enrolments can be stored as connections are under way. */
  lemma {:induction false} SpentCodeStoresIff(events: seq<Event>, count: nat)
    requires Run(events) && Final(events).world.armed == None
    ensures (exists more :: Run(events + more) && NoBeginning(more)
                            && Newer(Final(events + more).world.stored, Final(events).drawn) == count)
       <==> count <= |UnderwayIn(Final(events))|
  {
    hide Run, At, Newer, NoBeginning;
    var drawn := Final(events).drawn;
    NothingNewerYet(events);
    if count <= |UnderwayIn(Final(events))| {
      var more := EachStores(events, drawn, count);
    } else {
      forall more | Run(events + more) && NoBeginning(more)
        ensures Newer(Final(events + more).world.stored, drawn) < count
      {
        ChancesFall(events, more, drawn);
      }
    }
  }

  lemma JustBegun(bootstrap: Bootstrap)
    ensures var began := [Began(bootstrap)];
      Run(began) && Final(began) == Config(START.world.(armed := Some(bootstrap)), map[], {bootstrap.sessionId})
  {
    StepAt([Began(bootstrap)], 0);
  }

  lemma MayArrive(c: Config, n: nat)
    requires n !in c.connections
    ensures Enabled(c, ArmedRead(n))
  {
  }

  /** One code, begun once and read by this many connections before the first of them posts. */
  lemma {:induction false} ReadByMany(bootstrap: Bootstrap, count: nat) returns (events: seq<Event>)
    ensures Run(events) && events != [] && events[0] == Began(bootstrap) && NoBeginning(events[1..])
    ensures Final(events).world == START.world.(armed := Some(bootstrap))
    ensures forall n: nat :: n in Final(events).connections <==> n < count
    ensures forall n: nat :: n < count ==> Final(events).connections[n] == Started(Some(bootstrap))
  {
    hide At, Run, Enabled;
    if count == 0 {
      events := [Began(bootstrap)];
      JustBegun(bootstrap);
    } else {
      var before := ReadByMany(bootstrap, count - 1);
      events := before + [ArmedRead(count - 1)];
      assert Enabled(Final(before), ArmedRead(count - 1)) by {
        MayArrive(Final(before), count - 1);
      }
      RunGrows(before, ArmedRead(count - 1));
      FinalNext(before, ArmedRead(count - 1));
    }
  }

  /** The store after these enrolments, from an empty one. */
  ghost function Records(handshakes: seq<Handshake>): Devices
    requires Spoken(handshakes)
  {
    if handshakes == [] then map[]
    else
      var n := |handshakes| - 1;
      Records(handshakes[..n])[handshakes[n].deviceId := RecordOf(handshakes[n])]
  }

  /** Enrolments in this code, of devices and credentials of their own. */
  ghost predicate Different(handshakes: seq<Handshake>, code: Bootstrap) {
    && (forall i :: 0 <= i < |handshakes| ==>
          EnrolsIn(handshakes[i], code) && Presents(handshakes[i].deviceId, None, handshakes[i]))
    && (forall i, j :: 0 <= i < j < |handshakes| ==>
          && handshakes[i].deviceId != handshakes[j].deviceId
          && handshakes[i].heard.enrolment.credentialId != handshakes[j].heard.enrolment.credentialId)
  }

  ghost predicate Spoken(handshakes: seq<Handshake>) {
    forall i :: 0 <= i < |handshakes| ==> handshakes[i].Completed? && handshakes[i].heard.Spoke?
  }

  ghost predicate RecordFrom(handshakes: seq<Handshake>, i: nat, d: string, record: Device)
    requires Spoken(handshakes)
  {
    i < |handshakes| && handshakes[i].deviceId == d && RecordOf(handshakes[i]) == record
  }

  lemma {:induction false} RecordsComeFrom(handshakes: seq<Handshake>, d: string) returns (i: nat)
    requires Spoken(handshakes) && d in Records(handshakes)
    ensures RecordFrom(handshakes, i, d, Records(handshakes)[d])
  {
    hide RecordOf;
    i := |handshakes| - 1;
    if handshakes[i].deviceId != d {
      i := RecordsComeFrom(handshakes[..i], d);
    }
  }

  lemma {:induction false} RecordsHold(handshakes: seq<Handshake>, code: Bootstrap)
    requires Different(handshakes, code)
    ensures Spoken(handshakes) && |Records(handshakes)| == |handshakes|
    ensures forall i :: 0 <= i < |handshakes| ==>
      handshakes[i].deviceId in Records(handshakes)
      && Records(handshakes)[handshakes[i].deviceId] == RecordOf(handshakes[i])
  {
    hide EnrolsIn, Presents, RecordOf;
    EnrolsMeansSpoke(handshakes, code);
    if handshakes != [] {
      var n := |handshakes| - 1;
      RecordsHold(handshakes[..n], code);
      IsNew(handshakes, code, n);
      var before := Records(handshakes[..n]);
      assert Records(handshakes).Keys == before.Keys + {handshakes[n].deviceId};
      assert |Records(handshakes).Keys| == |Records(handshakes)| && |before.Keys| == |before|;
      forall i | 0 <= i < n
        ensures handshakes[i].deviceId in before && before[handshakes[i].deviceId] == RecordOf(handshakes[i])
      {
        assert handshakes[..n][i] == handshakes[i];
      }
    }
  }

  lemma IsNew(handshakes: seq<Handshake>, code: Bootstrap, i: nat)
    requires Different(handshakes, code) && i < |handshakes|
    ensures Spoken(handshakes[..i]) && handshakes[i].deviceId !in Records(handshakes[..i])
  {
    hide Records, EnrolsIn, Presents;
    EnrolsMeansSpoke(handshakes, code);
    if handshakes[i].deviceId in Records(handshakes[..i]) {
      var j := RecordsComeFrom(handshakes[..i], handshakes[i].deviceId);
    }
  }

  lemma EnrolsMeansSpoke(handshakes: seq<Handshake>, code: Bootstrap)
    requires Different(handshakes, code)
    ensures Spoken(handshakes)
    ensures forall n :: 0 <= n <= |handshakes| ==> Different(handshakes[..n], code)
  {
    hide Presents;
  }

  /** The store has room for the next of them, and then holds it too. */
  lemma NextRecord(handshakes: seq<Handshake>, code: Bootstrap, i: nat)
    requires Different(handshakes, code) && i < |handshakes|
    ensures Spoken(handshakes)
    ensures var before, h := Records(handshakes[..i]), handshakes[i];
      && h.deviceId !in before && !Conflicts(before, h.deviceId, RecordOf(h))
      && Inserted(before, h.deviceId, RecordOf(h)) == Records(handshakes[..i + 1])
  {
    EnrolsMeansSpoke(handshakes, code);
    IsNew(handshakes, code, i);
    var before, h := Records(handshakes[..i]), handshakes[i];
    forall d, o | d in before && o in before[d].credentials ensures o.id != h.heard.enrolment.credentialId {
      var j := RecordsComeFrom(handshakes[..i], d);
    }
    NewDeviceTaken(before, h);
    assert handshakes[..i + 1][..i] == handshakes[..i];
  }

  lemma NewDeviceTaken(before: Devices, h: Handshake)
    requires h.Completed? && h.heard.Spoke? && h.deviceId !in before
    requires forall d, o :: d in before && o in before[d].credentials ==> o.id != h.heard.enrolment.credentialId
    ensures !Conflicts(before, h.deviceId, RecordOf(h))
    ensures Inserted(before, h.deviceId, RecordOf(h)) == before[h.deviceId := RecordOf(h)]
  {
    assert RecordOf(h).credentials + [] == RecordOf(h).credentials;
  }

  /** The run up to the `i`-th enrolment: what is stored so far, and the connections that go on. */
  ghost predicate Enrolled(c: Config, handshakes: seq<Handshake>, code: Bootstrap, i: nat)
    requires Different(handshakes, code) && i <= |handshakes|
  {
    EnrolsMeansSpoke(handshakes, code);
    && c.world.devices == Records(handshakes[..i]) && Mirrored(c.world) && |c.world.stored| == i
    && (forall j :: 0 <= j < i ==>
          c.world.stored[j]
          == ProposalOf(c.world.stored[j].attemptId, handshakes[j].heard.enrolment, handshakes[j]))
    && forall j: nat :: i <= j < |handshakes| ==>
        j in c.connections && c.connections[j] == Started(Some(code))
  }

  lemma EnrolNext(events: seq<Event>, handshakes: seq<Handshake>, code: Bootstrap, i: nat)
    returns (more: seq<Event>)
    requires Different(handshakes, code) && i < |handshakes|
    requires Run(events) && Enrolled(Final(events), handshakes, code, i)
    ensures Run(events + more) && NoBeginning(more)
    ensures Enrolled(Final(events + more), handshakes, code, i + 1)
  {
    hide Run, At, Conflicts, Inserted, Presents, EnrolsIn, RecordOf, Records;
    EnrolsMeansSpoke(handshakes, code);
    NextRecord(handshakes, code, i);
    var c, h := Final(events), handshakes[i];
    assert Offers(c, i, h);
    var attemptId;
    more, attemptId := UnderwayStores(events, i, h);
    InstallTakes(c, i, h, attemptId);
  }

  lemma {:induction false} EnrolAll(events: seq<Event>, handshakes: seq<Handshake>, code: Bootstrap, i: nat)
    returns (more: seq<Event>)
    requires Different(handshakes, code) && i <= |handshakes|
    requires Run(events) && Enrolled(Final(events), handshakes, code, i)
    ensures Run(events + more) && NoBeginning(more)
    ensures Enrolled(Final(events + more), handshakes, code, |handshakes|)
    decreases |handshakes| - i
  {
    hide Run, At, Enrolled, Different;
    if i == |handshakes| {
      more := [];
      assert events + more == events;
    } else {
      var first := EnrolNext(events, handshakes, code, i);
      var rest := EnrolAll(events + first, handshakes, code, i + 1);
      more := first + rest;
      assert events + first + rest == events + more;
    }
  }

  /** So a code that is shown once can store any list of different phones, in any order. */
  lemma {:induction false} OneCodeManyDevices(code: Bootstrap, handshakes: seq<Handshake>)
    returns (events: seq<Event>)
    requires Different(handshakes, code)
    ensures Run(events) && events != [] && events[0] == Began(code) && NoBeginning(events[1..])
    ensures Spoken(handshakes)
    ensures var w := Final(events).world;
      && |w.devices| == |w.stored| == |handshakes|
      && forall i :: 0 <= i < |handshakes| ==>
          && w.stored[i] == ProposalOf(w.stored[i].attemptId, handshakes[i].heard.enrolment, handshakes[i])
          && handshakes[i].deviceId in w.devices && w.devices[handshakes[i].deviceId] == DeviceOf(w.stored[i])
  {
    hide Run, At, Presents, EnrolsIn;
    var read := ReadByMany(code, |handshakes|);
    EnrolsMeansSpoke(handshakes, code);
    var more := EnrolAll(read, handshakes, code, 0);
    events := read + more;
    assert events[1..] == read[1..] + more;
    RecordsHold(handshakes, code);
    assert handshakes[..|handshakes|] == handshakes;
  }
}
