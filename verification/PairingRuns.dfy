/** What the pairing machine promises over every interleaving of the user and the network. */
module PairingRuns {
  import opened Common
  import opened DeviceStore
  import opened Pairing

  datatype Event =
    | Began(bootstrap: Bootstrap)
    | Cancelled
    | Polled
    | Confirmed(code: string, quoted: Option<nat>, saved: bool)
    | Forgot(device: string, saved: bool)
    | ArmedRead(connection: nat)
    | PeerRead(connection: nat, claimed: string)
    | Ended(connection: nat, handshake: Handshake, attemptId: nat)

  /** The shared state, the connections' local states, and the identifiers drawn so far. */
  datatype Config = Config(world: World, connections: map<nat, Connection>, drawn: set<nat>)

  const START := Config(World(None, map[], None, None, map[], []), map[], {})

  /** Random identifiers do not repeat, a connection takes its three locks in order, and a handshake
      proves what was claimed and found. */
  predicate Enabled(c: Config, e: Event) {
    match e
    case Began(bootstrap) => bootstrap.sessionId !in c.drawn
    case ArmedRead(n) => n !in c.connections
    case PeerRead(n, _) => n in c.connections && c.connections[n].Started?
    case Ended(n, handshake, attemptId) =>
      && n in c.connections && c.connections[n].Identified? && attemptId !in c.drawn
      && Presents(c.connections[n].claimed, c.connections[n].known, handshake)
    case _ => true
  }

  /** The proposal an event posts, if it posts one. */
  function Posting(c: Config, e: Event): Option<Proposal> {
    if e.Ended? && e.connection in c.connections && c.connections[e.connection].Identified? then
      var conn := c.connections[e.connection];
      var decision := Decide(conn.armed, conn.known, e.handshake);
      if decision.Enrols? then Some(ProposalOf(e.attemptId, decision.enrolment, e.handshake)) else None
    else None
  }

  function Step(c: Config, e: Event): Config {
    match e
    case Began(bootstrap) => c.(world := Begin(c.world, bootstrap), drawn := c.drawn + {bootstrap.sessionId})
    case Cancelled => c.(world := Cancel(c.world))
    case Polled => c.(world := Poll(c.world))
    case Confirmed(code, quoted, saved) => c.(world := Confirm(c.world, code, quoted, saved))
    case Forgot(device, saved) => c.(world := Forget(c.world, device, saved))
    case ArmedRead(n) => c.(connections := c.connections[n := Started(c.world.armed)])
    case PeerRead(n, claimed) =>
      if n in c.connections && c.connections[n].Started? then
        var known := LookUp(c.world.knownPeers, claimed);
        c.(connections := c.connections[n := Identified(c.connections[n].armed, claimed, known)])
      else c
    case Ended(n, _, attemptId) =>
      var after := c.(connections := c.connections[n := Finished], drawn := c.drawn + {attemptId});
      match Posting(c, e)
      case None => after
      case Some(p) => after.(world := Post(c.world, p))
  }

  function At(events: seq<Event>, k: nat): Config
    requires k <= |events|
  {
    if k == 0 then START else Step(At(events, k - 1), events[k - 1])
  }

  ghost predicate Run(events: seq<Event>) {
    forall k :: 0 <= k < |events| ==> Enabled(At(events, k), events[k])
  }

  function AnswerTo(events: seq<Event>, k: nat): ConfirmAnswer
    requires k < |events| && events[k].Confirmed?
  {
    ConfirmAnswerOf(At(events, k).world, events[k].code, events[k].quoted, events[k].saved)
  }

  // ---- Where proposals come from ----

  /** Step `j` posted `p`, and its connection had read `bootstrap` armed at step `i`. */
  ghost predicate Origin(events: seq<Event>, i: nat, j: nat, bootstrap: Bootstrap, p: Proposal) {
    && i < j < |events|
    && events[j].Ended? && events[i] == ArmedRead(events[j].connection)
    && At(events, i).world.armed == Some(bootstrap)
    && Posting(At(events, j), events[j]) == Some(p)
    && p.purpose == bootstrap.purpose
  }

  /** Connection `n` read this code, or that there was none, at step `i`. */
  ghost predicate ReadCode(events: seq<Event>, i: nat, n: nat, armed: Option<Bootstrap>) {
    i < |events| && events[i] == ArmedRead(n) && At(events, i).world.armed == armed
  }

  /** Connection `n` looked this device up in the peer table at step `i`, with this result. */
  ghost predicate ReadPeers(events: seq<Event>, i: nat, n: nat, claimed: string, known: Option<seq<byte>>) {
    && i < |events| && events[i] == PeerRead(n, claimed)
    && var peers := At(events, i).world.knownPeers;
      known == if claimed in peers then Some(peers[claimed]) else None
  }

  /** What connection `n` holds after `k` steps is what it read at earlier ones, the peer table
      later than the code. */
  ghost predicate Remembers(events: seq<Event>, k: nat, n: nat)
    requires k <= |events| && n in At(events, k).connections
  {
    var conn := At(events, k).connections[n];
    !conn.Finished? ==>
      exists i: nat :: i < k && ReadCode(events, i, n, conn.armed)
        && (conn.Identified? ==> exists r: nat :: i < r < k && ReadPeers(events, r, n, conn.claimed, conn.known))
  }

  lemma ConnectionsChange(c: Config, e: Event, n: nat)
    requires n in Step(c, e).connections
    ensures var now := Step(c, e).connections[n];
      || now.Finished?
      || (n in c.connections && now == c.connections[n])
      || (n in c.connections && c.connections[n].Started? && e.PeerRead? && e.connection == n
          && now == Identified(c.connections[n].armed, e.claimed, LookUp(c.world.knownPeers, e.claimed)))
      || (e == ArmedRead(n) && now == Started(c.world.armed))
  {
  }

  /** Each connection acts on what it read, once and in this order: the armed code and then the
      peer table. However the shared state moves on, its copies are not refreshed. */
  lemma {:induction false} SnapshotsAreReads(events: seq<Event>, k: nat, n: nat)
    requires k <= |events| && n in At(events, k).connections
    ensures Remembers(events, k, n)
  {
    hide Step;
    if k > 0 {
      ConnectionsChange(At(events, k - 1), events[k - 1], n);
      var now := At(events, k).connections[n];
      if events[k - 1] == ArmedRead(n) && now == Started(At(events, k - 1).world.armed) {
        assert ReadCode(events, k - 1, n, now.armed);
      } else if n in At(events, k - 1).connections && !now.Finished? {
        SnapshotsAreReads(events, k - 1, n);
        var before := At(events, k - 1).connections[n];
        var i: nat :| i < k - 1 && ReadCode(events, i, n, before.armed)
          && (before.Identified? ==>
                exists r: nat :: i < r < k - 1 && ReadPeers(events, r, n, before.claimed, before.known));
        assert ReadCode(events, i, n, now.armed);
        if now.Identified? {
          if before == now {
            var r: nat :| i < r < k - 1 && ReadPeers(events, r, n, now.claimed, now.known);
            assert r < k;
          } else {
            assert ReadPeers(events, k - 1, n, now.claimed, now.known);
          }
        }
      }
    }
  }

  /** A posted proposal has the purpose of a code its connection read while it was armed. */
  lemma {:induction false} PostingNeedsAnArmedCode(events: seq<Event>, j: nat, p: Proposal)
    returns (i: nat, bootstrap: Bootstrap)
    requires j < |events| && Posting(At(events, j), events[j]) == Some(p)
    ensures Origin(events, i, j, bootstrap, p)
  {
    var n := events[j].connection;
    SnapshotsAreReads(events, j, n);
    var conn := At(events, j).connections[n];
    i :| i < j && ReadCode(events, i, n, conn.armed);
    bootstrap := conn.armed.value;
  }

  /** Proposal `p` was posted by some step before `k`. */
  ghost predicate PostedBefore(events: seq<Event>, k: nat, p: Proposal) {
    exists j :: 0 <= j < k && j < |events| && Posting(At(events, j), events[j]) == Some(p)
  }

  lemma ProposalsMove(c: Config, e: Event)
    ensures var w, w' := c.world, Step(c, e).world;
      && (w'.proposal.Some? ==> w'.proposal == w.proposal || w'.proposal == Posting(c, e))
      && (w'.held.Some? ==> w'.held == w.held || w'.held == w.proposal)
      && (w'.stored == w.stored || (w.held.Some? && w'.stored == w.stored + [w.held.value]))
  {
    hide Posting, Conflicts, Inserted, Identities;
  }

  lemma PostedStays(events: seq<Event>, k: nat, p: Proposal)
    requires PostedBefore(events, k, p)
    ensures PostedBefore(events, k + 1, p)
  {
  }

  /** Nothing is proposed, held or stored that no connection posted. */
  lemma {:induction false} ProposalsArePosted(events: seq<Event>, k: nat)
    requires k <= |events|
    ensures var w := At(events, k).world;
      && (w.proposal.Some? ==> PostedBefore(events, k, w.proposal.value))
      && (w.held.Some? ==> PostedBefore(events, k, w.held.value))
      && (forall i :: 0 <= i < |w.stored| ==> PostedBefore(events, k, w.stored[i]))
  {
    hide Step, Posting;
    if k > 0 {
      ProposalsArePosted(events, k - 1);
      ProposalsMove(At(events, k - 1), events[k - 1]);
      var w := At(events, k - 1).world;
      if w.proposal.Some? {
        PostedStays(events, k - 1, w.proposal.value);
      }
      if w.held.Some? {
        PostedStays(events, k - 1, w.held.value);
      }
      forall i | 0 <= i < |w.stored|
        ensures PostedBefore(events, k, w.stored[i])
      {
        PostedStays(events, k - 1, w.stored[i]);
      }
    }
  }

  predicate Takes(answer: ConfirmAnswer) {
    answer.Stored? || answer.Unwritten?
  }

  lemma TakesHeld(c: Config, e: Event)
    requires e.Confirmed? && Takes(ConfirmAnswerOf(c.world, e.code, e.quoted, e.saved))
    ensures c.world.held.Some?
    ensures var p, w' := c.world.held.value, Step(c, e).world;
      && w'.stored == c.world.stored + [p] && w'.held == None
      && w'.devices == Inserted(c.world.devices, p.deviceId, DeviceOf(p))
      && p.verificationCode == e.code && (e.quoted.Some? ==> e.quoted.value == p.attemptId)
  {
    hide Conflicts, Inserted, Identities, Posting;
  }

  /** A confirmation that brings a device into the store brings the proposal then held: one posted by a
      connection that had read an armed code of the same purpose, whose verification code is the
      one quoted and whose attempt is the one quoted, if any was. */
  lemma {:induction false} StoredOnlyFromAnArmedCode(events: seq<Event>, k: nat)
    returns (i: nat, j: nat, bootstrap: Bootstrap, p: Proposal)
    requires k < |events| && events[k].Confirmed? && Takes(AnswerTo(events, k))
    ensures At(events, k).world.held == Some(p)
    ensures At(events, k + 1).world.stored == At(events, k).world.stored + [p]
    ensures At(events, k + 1).world.devices == Inserted(At(events, k).world.devices, p.deviceId, DeviceOf(p))
    ensures At(events, k + 1).world.held == None
    ensures j < k && Origin(events, i, j, bootstrap, p)
    ensures p.verificationCode == events[k].code
    ensures events[k].quoted.Some? ==> events[k].quoted.value == p.attemptId
  {
    hide Posting, Step, At, Conflicts, Inserted, Identities;
    StepAt(events, k);
    TakesHeld(At(events, k), events[k]);
    p := At(events, k).world.held.value;
    ProposalsArePosted(events, k);
    assert PostedBefore(events, k, p);
    j :| 0 <= j < k && j < |events| && Posting(At(events, j), events[j]) == Some(p);
    i, bootstrap := PostingNeedsAnArmedCode(events, j, p);
  }

  /** What a proposal says, field by field. */
  ghost predicate Says(p: Proposal, attemptId: nat, h: Handshake) {
    && h.Completed? && h.heard.Spoke? && p.attemptId == attemptId
    && p.deviceId == h.deviceId && p.identity == h.identity && p.verificationCode == h.verificationCode
    && var e := h.heard.enrolment;
      && p.deviceName == e.deviceName && p.credentialId == e.credentialId
      && p.publicKey == e.publicKey && p.purpose == e.purpose
  }

  lemma PostingSays(c: Config, e: Event, p: Proposal)
    requires Posting(c, e) == Some(p)
    ensures e.Ended? && Says(p, e.attemptId, e.handshake)
  {
  }

  /** A device that holds this enrolment, and nothing else under its credential id; the credential
      may do nothing yet. */
  ghost predicate Enrols(device: Device, h: Handshake)
    requires h.Completed? && h.heard.Spoke?
  {
    var e := h.heard.enrolment;
    && device.name == e.deviceName && device.identity == h.identity
    && Credential(e.credentialId, e.publicKey, e.purpose, []) in device.credentials
    && forall c :: c in device.credentials && c.id == e.credentialId ==>
        c.publicKey == e.publicKey && c.purpose == e.purpose && c.permissions == []
  }

  lemma TakenEnrols(devices: Devices, p: Proposal, attemptId: nat, h: Handshake)
    requires Says(p, attemptId, h)
    ensures var after := Inserted(devices, p.deviceId, DeviceOf(p));
      && h.deviceId in after && Enrols(after[h.deviceId], h)
      && after - {h.deviceId} == devices - {h.deviceId}
  {
    var c := DeviceOf(p).credentials[0];
    assert Names(DeviceOf(p).credentials, c.id);
  }

  /** A confirmation that answers that the device is stored has put into the store what a phone enrolled
      when it posted, under the identity it proved, and nothing else has changed there; and from then
      on the listener finds that identity. */
  lemma {:induction false} StoredIsWhatWasEnrolled(events: seq<Event>, k: nat) returns (j: nat)
    requires k < |events| && events[k].Confirmed? && Takes(AnswerTo(events, k))
    ensures j < k && events[j].Ended? && events[j].handshake.Completed? && events[j].handshake.heard.Spoke?
    ensures events[k].code == events[j].handshake.verificationCode
    ensures events[k].quoted.Some? ==> events[k].quoted.value == events[j].attemptId
    ensures var h, before, after := events[j].handshake, At(events, k).world, At(events, k + 1).world;
      && h.deviceId in after.devices && Enrols(after.devices[h.deviceId], h)
      && after.devices - {h.deviceId} == before.devices - {h.deviceId}
      && (AnswerTo(events, k) == Stored ==>
            h.deviceId in after.knownPeers && after.knownPeers[h.deviceId] == h.identity)
  {
    hide Step, At, Posting, Inserted, Enrols, Conflicts;
    var i, bootstrap, p;
    i, j, bootstrap, p := StoredOnlyFromAnArmedCode(events, k);
    PostingSays(At(events, j), events[j], p);
    TakenEnrols(At(events, k).world.devices, p, events[j].attemptId, events[j].handshake);
    StepAt(events, k);
    if AnswerTo(events, k) == Stored {
      StoredIsPublished(At(events, k), events[k]);
      IdentityOf(At(events, k + 1).world.devices, events[j].handshake);
    }
  }

  lemma IdentityOf(devices: Devices, h: Handshake)
    requires h.Completed? && h.heard.Spoke? && h.deviceId in devices && Enrols(devices[h.deviceId], h)
    ensures devices[h.deviceId].identity == h.identity
  {
  }

  lemma StoredIsPublished(c: Config, e: Event)
    requires e.Confirmed? && ConfirmAnswerOf(c.world, e.code, e.quoted, e.saved) == Stored
    ensures var w' := Step(c, e).world;
      forall d :: d in w'.devices ==> d in w'.knownPeers && w'.knownPeers[d] == w'.devices[d].identity
  {
    hide Conflicts, Inserted, Posting;
  }

  /** The phone that enrolled is the one its connection had claimed to speak for and looked up, under
      the identity that the peer table then had for it, if it had one: pairing a known phone afresh
      cannot change its identity. */
  lemma {:induction false} StoredForWhomWasLookedUp(events: seq<Event>, k: nat) returns (r: nat, j: nat)
    requires Run(events) && k < |events| && events[k].Confirmed? && Takes(AnswerTo(events, k))
    ensures r < j < k && events[j].Ended? && events[j].handshake.Completed? && events[j].handshake.heard.Spoke?
    ensures var h := events[j].handshake;
      && events[r] == PeerRead(events[j].connection, h.deviceId)
      && var peers, after := At(events, r).world.knownPeers, At(events, k + 1).world.devices;
        && h.deviceId in after && Enrols(after[h.deviceId], h)
        && (h.deviceId in peers ==> after[h.deviceId].identity == peers[h.deviceId])
  {
    hide Step, At, Posting, Enrols, Conflicts, Inserted;
    j := StoredIsWhatWasEnrolled(events, k);
    assert Enabled(At(events, j), events[j]);
    var n := events[j].connection;
    var conn := At(events, j).connections[n];
    SnapshotsAreReads(events, j, n);
    r :| r < j && ReadPeers(events, r, n, conn.claimed, conn.known);
    assert ReadPeers(events, r, n, conn.claimed, conn.known);
    IdentityOf(At(events, k + 1).world.devices, events[j].handshake);
  }

  // ---- Each lock once ----

  /** Which of its three locks a connection takes in an event. */
  function Lock(e: Event, n: nat): nat {
    match e
    case ArmedRead(m) => if m == n then 1 else 0
    case PeerRead(m, _) => if m == n then 2 else 0
    case Ended(m, _, _) => if m == n then 3 else 0
    case _ => 0
  }

  /** How many of its locks a connection has taken. */
  function Locks(c: Config, n: nat): nat {
    if n !in c.connections then 0
    else
      match c.connections[n]
      case Started(_) => 1
      case Identified(_, _, _) => 2
      case Finished => 3
  }

  lemma LockTaken(c: Config, e: Event, n: nat)
    requires Enabled(c, e)
    ensures if Lock(e, n) == 0 then Locks(Step(c, e), n) == Locks(c, n)
            else Lock(e, n) == Locks(c, n) + 1 == Locks(Step(c, e), n)
  {
    hide Begin, Cancel, Poll, Confirm, Forget, Post, Presents, Posting;
  }

  lemma {:induction false} LocksGrow(events: seq<Event>, i: nat, j: nat, n: nat)
    requires Run(events) && i <= j <= |events|
    ensures Locks(At(events, i), n) <= Locks(At(events, j), n)
    decreases j
  {
    hide At, Step, Enabled, Locks;
    if i < j {
      LocksGrow(events, i, j - 1, n);
      StepAt(events, j - 1);
      LockTaken(At(events, j - 1), events[j - 1], n);
    }
  }

  /** In every run a connection takes each of its three locks at most once, and in their order. */
  lemma {:induction false} EachLockOnce(events: seq<Event>, i: nat, j: nat, n: nat)
    requires Run(events) && i < j < |events| && Lock(events[i], n) > 0 && Lock(events[j], n) > 0
    ensures Lock(events[i], n) < Lock(events[j], n)
  {
    hide At, Step, Enabled, Locks;
    StepAt(events, i);
    LockTaken(At(events, i), events[i], n);
    LocksGrow(events, i + 1, j, n);
    LockTaken(At(events, j), events[j], n);
  }

  // ---- At most once ----

  /** Every proposal is in at most one place: proposed, held, or stored once. */
  ghost predicate OnePlace(c: Config) {
    var w := c.world;
    && (w.proposal.Some? ==> w.proposal.value.attemptId in c.drawn)
    && (w.held.Some? ==> w.held.value.attemptId in c.drawn)
    && (w.proposal.Some? && w.held.Some? ==> w.proposal.value.attemptId != w.held.value.attemptId)
    && (forall i :: 0 <= i < |w.stored| ==>
          && w.stored[i].attemptId in c.drawn
          && (w.proposal.Some? ==> w.proposal.value.attemptId != w.stored[i].attemptId)
          && (w.held.Some? ==> w.held.value.attemptId != w.stored[i].attemptId))
    && (forall i, j :: 0 <= i < j < |w.stored| ==> w.stored[i].attemptId != w.stored[j].attemptId)
  }

  lemma ConfirmMoves(w: World, code: string, quoted: Option<nat>, saved: bool)
    ensures var w' := Confirm(w, code, quoted, saved);
      && w'.proposal == w.proposal && w'.armed == w.armed
      && (|| (w'.held == w.held && w'.stored == w.stored)
          || (w'.held == None && (w'.stored == w.stored
                                  || (w.held.Some? && w'.stored == w.stored + [w.held.value]))))
  {
    hide Conflicts, Inserted, Identities;
  }

  lemma ForgetMoves(w: World, device: string, saved: bool)
    ensures var w' := Forget(w, device, saved); w' == w.(knownPeers := w'.knownPeers, devices := w'.devices)
  {
    hide Identities;
  }

  lemma StepKeepsOnePlace(c: Config, e: Event)
    requires OnePlace(c) && Enabled(c, e)
    ensures OnePlace(Step(c, e))
  {
    hide Presents, Decide, Confirm, Forget;
    if e.Confirmed? {
      ConfirmMoves(c.world, e.code, e.quoted, e.saved);
    } else if e.Forgot? {
      ForgetMoves(c.world, e.device, e.saved);
    }
  }

  /** In every run each proposal is in at most one place, so it is stored at most once. */
  lemma {:induction false} StoredAtMostOnce(events: seq<Event>, k: nat)
    requires Run(events) && k <= |events|
    ensures OnePlace(At(events, k))
    ensures var stored := At(events, k).world.stored;
      forall i, j :: 0 <= i < j < |stored| ==> stored[i] != stored[j]
  {
    hide Step, Enabled;
    if k > 0 {
      StoredAtMostOnce(events, k - 1);
      assert Enabled(At(events, k - 1), events[k - 1]);
      StepKeepsOnePlace(At(events, k - 1), events[k - 1]);
    }
  }

  // ---- Asking is not consuming ----

  /** A confirmation quoting another attempt is refused and changes nothing at all; and it is
      the only refusal that leaves a held proposal held. */
  lemma {:induction false} StaleAttemptsTouchNothing(events: seq<Event>, k: nat)
    requires k < |events| && events[k].Confirmed?
    ensures AnswerTo(events, k) == StaleAttempt ==> At(events, k + 1) == At(events, k)
    ensures AnswerTo(events, k) != StaleAttempt ==> At(events, k + 1).world.held == None
    ensures var held := At(events, k).world.held;
      AnswerTo(events, k) == StaleAttempt
      <==> held.Some? && events[k].quoted.Some? && events[k].quoted.value != held.value.attemptId
  {
  }

  predicate ByUser(e: Event) {
    e.Began? || e.Cancelled? || e.Confirmed?
  }

  /** Once a poll has returned a proposal, every later poll returns the same one until the user
      begins, cancels or confirms, whatever connections do meanwhile. */
  lemma {:induction false} PollsAgree(events: seq<Event>, k: nat, m: nat)
    requires k < m <= |events| && events[k] == Polled
    requires At(events, k + 1).world.held.Some?
    requires forall j :: k < j < m ==> !ByUser(events[j])
    ensures At(events, m).world.held == At(events, k + 1).world.held
    ensures Poll(At(events, m).world) == At(events, m).world
  {
    if m > k + 1 {
      PollsAgree(events, k, m - 1);
    }
  }

  // ---- How stale a snapshot may be ----

  /** A step after which the code a connection read may no longer be the one armed. */
  predicate Rearms(c: Config, e: Event) {
    e.Began? || e.Cancelled? || Posting(c, e).Some?
  }

  lemma ArmedMoves(c: Config, e: Event)
    ensures var c' := Step(c, e);
      && c.drawn <= c'.drawn
      && (if !Rearms(c, e) then c'.world.armed == c.world.armed
          else c'.world.armed == if e.Began? then Some(e.bootstrap) else None)
      && (e.Began? ==> e.bootstrap.sessionId in c'.drawn)
  {
  }

  lemma {:induction false} UntouchedCodeStaysArmed(events: seq<Event>, i: nat, j: nat)
    requires i <= j <= |events|
    requires forall m :: i <= m < j ==> !Rearms(At(events, m), events[m])
    ensures At(events, j).world.armed == At(events, i).world.armed
    decreases j
  {
    hide Step, Posting;
    if i < j {
      UntouchedCodeStaysArmed(events, i, j - 1);
      ArmedMoves(At(events, j - 1), events[j - 1]);
    }
  }

  lemma {:induction false} CodesAreDrawn(events: seq<Event>, k: nat)
    requires k <= |events|
    ensures At(events, k).world.armed.Some? ==> At(events, k).world.armed.value.sessionId in At(events, k).drawn
  {
    hide Step, Posting;
    if k > 0 {
      CodesAreDrawn(events, k - 1);
      ArmedMoves(At(events, k - 1), events[k - 1]);
    }
  }

  lemma {:induction false} DrawnGrows(events: seq<Event>, i: nat, j: nat)
    requires i <= j <= |events|
    ensures At(events, i).drawn <= At(events, j).drawn
    decreases j
  {
    hide Step, Posting;
    if i < j {
      DrawnGrows(events, i, j - 1);
      ArmedMoves(At(events, j - 1), events[j - 1]);
    }
  }

  /** Once disarmed, a code never comes back: codes are drawn fresh. */
  lemma {:induction false} DisarmedStaysDisarmed(events: seq<Event>, m: nat, j: nat, code: Bootstrap)
    requires Run(events) && m <= j <= |events|
    requires code.sessionId in At(events, m).drawn && At(events, m).world.armed != Some(code)
    ensures At(events, j).world.armed != Some(code)
    decreases j
  {
    hide Step, Posting, Presents, At;
    if m < j {
      DisarmedStaysDisarmed(events, m, j - 1, code);
      DrawnGrows(events, m, j - 1);
      assert Enabled(At(events, j - 1), events[j - 1]);
      StepAt(events, j - 1);
      ArmedMoves(At(events, j - 1), events[j - 1]);
    }
  }

  /** The code a connection read at step `i` is still the armed one at step `j` exactly when no
      step between began, cancelled or posted. The posting step itself does not look. */
  lemma {:induction false} SnapshotIsCurrentIff(events: seq<Event>, i: nat, j: nat)
    requires Run(events) && i <= j <= |events| && At(events, i).world.armed.Some?
    ensures At(events, j).world.armed == At(events, i).world.armed
       <==> forall m :: i <= m < j ==> !Rearms(At(events, m), events[m])
  {
    hide Step, Posting, Rearms, At;
    var code := At(events, i).world.armed.value;
    if forall m :: i <= m < j ==> !Rearms(At(events, m), events[m]) {
      UntouchedCodeStaysArmed(events, i, j);
    } else {
      var m :| i <= m < j && Rearms(At(events, m), events[m]);
      RearmedIsGone(events, i, m, j, code);
    }
  }

  lemma RearmedIsGone(events: seq<Event>, i: nat, m: nat, j: nat, code: Bootstrap)
    requires Run(events) && i <= m < j <= |events| && At(events, i).world.armed == Some(code)
    requires Rearms(At(events, m), events[m])
    ensures At(events, j).world.armed != Some(code)
  {
    hide Step, Rearms, At;
    CodesAreDrawn(events, i);
    DrawnGrows(events, i, m);
    assert Enabled(At(events, m), events[m]);
    StepAt(events, m);
    ArmedMoves(At(events, m), events[m]);
    DisarmedStaysDisarmed(events, m + 1, j, code);
  }

  lemma StartAt(events: seq<Event>)
    ensures At(events, 0) == START
  {
  }

  lemma StepAt(events: seq<Event>, k: nat)
    requires k < |events|
    ensures At(events, k + 1) == Step(At(events, k), events[k])
  {
  }

  /** Proposed or held after `k` steps, or stored since step `m`. */
  ghost predicate InSight(events: seq<Event>, m: nat, k: nat, p: Proposal)
    requires m < k <= |events|
  {
    var before, now := At(events, m).world, At(events, k).world;
    || now.proposal == Some(p) || now.held == Some(p)
    || (|before.stored| <= |now.stored| && p in now.stored[|before.stored|..])
  }

  lemma {:induction false} StoredGrows(events: seq<Event>, m: nat, k: nat)
    requires m <= k <= |events|
    ensures At(events, m).world.stored <= At(events, k).world.stored
    decreases k
  {
    hide Step;
    if m < k {
      StoredGrows(events, m, k - 1);
      ProposalsMove(At(events, k - 1), events[k - 1]);
    }
  }

  /** After a cancellation, and before the next beginning, whatever is proposed, held or stored
      since was posted after the cancellation by a connection that had read a code before it. */
  lemma {:induction false} OnlyEarlierReadersSurviveCancel(events: seq<Event>, m: nat, k: nat, p: Proposal)
    returns (i: nat, j: nat, bootstrap: Bootstrap)
    requires m < k <= |events| && events[m] == Cancelled
    requires forall n :: m < n < k ==> !events[n].Began?
    requires InSight(events, m, k, p)
    ensures i < m < j < k && Origin(events, i, j, bootstrap, p)
    decreases k
  {
    hide Posting, Step, At;
    StepAt(events, k - 1);
    StoredGrows(events, m, k - 1);
    ProposalsMove(At(events, k - 1), events[k - 1]);
    if k == m + 1 {
      CancelClears(At(events, m));
      assert false;
    } else if InSight(events, m, k - 1, p) {
      i, j, bootstrap := OnlyEarlierReadersSurviveCancel(events, m, k - 1, p);
    } else {
      j := k - 1;
      ComesIntoSight(events, m, k, p);
      i, bootstrap := PostingNeedsAnArmedCode(events, j, p);
      if m < i {
        NothingArmedAfterCancel(events, m, i);
        assert false;
      }
    }
  }

  lemma CancelClears(c: Config)
    ensures var w, w' := c.world, Step(c, Cancelled).world;
      w'.armed == None && w'.proposal == None && w'.held == None && w'.stored == w.stored
  {
  }

  /** What was not in sight has just been posted. */
  lemma ComesIntoSight(events: seq<Event>, m: nat, k: nat, p: Proposal)
    requires m + 1 < k <= |events| && InSight(events, m, k, p) && !InSight(events, m, k - 1, p)
    ensures Posting(At(events, k - 1), events[k - 1]) == Some(p)
  {
    hide Posting, Step, At;
    StepAt(events, k - 1);
    StoredGrows(events, m, k - 1);
    ProposalsMove(At(events, k - 1), events[k - 1]);
  }

  lemma {:induction false} NothingArmedAfterCancel(events: seq<Event>, m: nat, k: nat)
    requires m < k <= |events| && events[m] == Cancelled
    requires forall n :: m < n < k ==> !events[n].Began?
    ensures At(events, k).world.armed == None
    decreases k
  {
    hide Posting, Step, At;
    StepAt(events, k - 1);
    if k == m + 1 {
      CancelClears(At(events, m));
    } else {
      NothingArmedAfterCancel(events, m, k - 1);
      ArmedMoves(At(events, k - 1), events[k - 1]);
    }
  }

  lemma EnrolmentPosts(c: Config, n: nat, code: Bootstrap, handshake: Handshake, attemptId: nat)
    requires n in c.connections && c.connections[n].Identified?
    requires c.connections[n].armed == Some(code) && c.connections[n].known == None
    requires handshake.Completed? && handshake.heard.Spoke? && handshake.heard.enrolment.purpose == code.purpose
    ensures Posting(c, Ended(n, handshake, attemptId))
         == Some(ProposalOf(attemptId, handshake.heard.enrolment, handshake))
  {
  }

  /** A connection that reads the code and then the peer table, before the pairing is cancelled. */
  lemma ReadBeforeCancel(events: seq<Event>, code: Bootstrap, claimed: string)
    requires |events| >= 4 && events[0] == Began(code) && events[1] == ArmedRead(0)
    requires events[2] == PeerRead(0, claimed) && events[3] == Cancelled
    ensures forall k :: 0 <= k < 4 ==> Enabled(At(events, k), events[k])
    ensures At(events, 4) == Config(START.world, map[0 := Identified(Some(code), claimed, None)], {code.sessionId})
  {
    hide At;
    var armed := START.world.(armed := Some(code));
    StartAt(events);
    StepAt(events, 0);
    assert At(events, 1) == Config(armed, map[], {code.sessionId});
    StepAt(events, 1);
    assert At(events, 2) == Config(armed, map[0 := Started(Some(code))], {code.sessionId});
    StepAt(events, 2);
    assert At(events, 3) == Config(armed, map[0 := Identified(Some(code), claimed, None)], {code.sessionId});
    StepAt(events, 3);
  }

  lemma EmptyTakes(owner: string, device: Device)
    ensures !Conflicts(map[], owner, device)
  {
  }

  lemma LateEnrolment(c: Config, code: Bootstrap, handshake: Handshake, p: Proposal)
    requires handshake.Completed? && handshake.heard.Spoke? && handshake.heard.enrolment.purpose == code.purpose
    requires Presents(handshake.deviceId, None, handshake)
    requires c == Config(START.world, map[0 := Identified(Some(code), handshake.deviceId, None)], {code.sessionId})
    requires p == ProposalOf(code.sessionId + 1, handshake.heard.enrolment, handshake)
    ensures Enabled(c, Ended(0, handshake, code.sessionId + 1))
    ensures var posted := Step(c, Ended(0, handshake, code.sessionId + 1));
      posted.world == START.world.(proposal := Some(p))
      && Step(posted, Polled).world == START.world.(held := Some(p))
  {
    hide Posting, Presents, ProposalOf;
    EnrolmentPosts(c, 0, code, handshake, code.sessionId + 1);
  }

  lemma HeldIsStored(w: World, p: Proposal)
    requires w.held == Some(p) && !Conflicts(w.devices, p.deviceId, DeviceOf(p))
    ensures ConfirmAnswerOf(w, p.verificationCode, Some(p.attemptId), true) == Stored
  {
  }

  lemma NothingNeeded(c: Config, d: Config, e: Event)
    requires e.Confirmed?
    ensures Enabled(c, Polled) && Enabled(d, e)
  {
  }

  /** Cancelling does not recall a connection already under way: whatever phone enrols over it, a
      run in which the device is stored although its pairing was cancelled before its proposal was
      posted. */
  lemma CancelDoesNotRecall(code: Bootstrap, handshake: Handshake) returns (events: seq<Event>)
    requires handshake.Completed? && handshake.heard.Spoke? && handshake.heard.enrolment.purpose == code.purpose
    requires Presents(handshake.deviceId, None, handshake)
    ensures Run(events) && |events| == 7 && events[0] == Began(code)
    ensures events[1] == ArmedRead(0) && events[3] == Cancelled && events[4].Ended?
    ensures events[4].connection == 0 && events[4].handshake == handshake
    ensures events[6].Confirmed? && AnswerTo(events, 6) == Stored
    ensures forall n :: 0 < n < |events| ==> !events[n].Began?
  {
    hide At, Step, Enabled, ConfirmAnswerOf, Conflicts, Presents, ProposalOf;
    var p := ProposalOf(code.sessionId + 1, handshake.heard.enrolment, handshake);
    events := [Began(code), ArmedRead(0), PeerRead(0, handshake.deviceId), Cancelled,
               Ended(0, handshake, code.sessionId + 1), Polled,
               Confirmed(p.verificationCode, Some(p.attemptId), true)];
    ReadBeforeCancel(events, code, handshake.deviceId);
    LateEnrolment(At(events, 4), code, handshake, p);
    StepAt(events, 4);
    StepAt(events, 5);
    EmptyTakes(p.deviceId, DeviceOf(p));
    HeldIsStored(At(events, 6).world, p);
    NothingNeeded(At(events, 5), At(events, 6), events[6]);
  }

  // ---- The store and the peer table ----

  /** In every run each credential id names one credential of one device. */
  lemma {:induction false} StoreStaysSound(events: seq<Event>, k: nat)
    requires k <= |events|
    ensures OneOwner(At(events, k).world.devices)
  {
    hide Step, OneOwner;
    if k == 0 {
      EmptyStore();
    } else {
      StoreStaysSound(events, k - 1);
      StepKeepsSound(At(events, k - 1), events[k - 1]);
    }
  }

  lemma EmptyStore()
    ensures OneOwner(map[])
  {
  }

  lemma DevicesMove(c: Config, e: Event)
    ensures var w, w' := c.world, Step(c, e).world;
      || w'.devices == w.devices
      || (e.Forgot? && w'.devices == w.devices - {e.device})
      || (w.held.Some? && var p := w.held.value;
          !Conflicts(w.devices, p.deviceId, DeviceOf(p))
          && w'.devices == Inserted(w.devices, p.deviceId, DeviceOf(p)))
  {
    hide Conflicts, Inserted, Posting;
  }

  lemma StepKeepsSound(c: Config, e: Event)
    requires OneOwner(c.world.devices)
    ensures OneOwner(Step(c, e).world.devices)
  {
    hide Conflicts, Inserted, OneOwner, Step;
    DevicesMove(c, e);
    if e.Forgot? {
      RemoveTakesOwn(c.world.devices, e.device);
    }
    if c.world.held.Some? {
      var p := c.world.held.value;
      if !Conflicts(c.world.devices, p.deviceId, DeviceOf(p)) {
        InsertMerges(c.world.devices, p.deviceId, DeviceOf(p));
      }
    }
  }

  ghost predicate Mirrored(w: World) {
    w.knownPeers == Identities(w.devices)
  }

  /** A change of the identities in the store that could not be written. */
  ghost predicate Lapses(c: Config, e: Event) {
    (e.Forgot? || e.Confirmed?) && !e.saved && Identities(Step(c, e).world.devices) != Identities(c.world.devices)
  }

  /** The listener's peer table goes on mirroring the store in every step but one that changes what
      the store holds and fails to write it: a device so forgotten is still let in, and one so
      enrolled is not. */
  lemma {:induction false} MirrorLapsesIff(c: Config, e: Event)
    requires Mirrored(c.world)
    ensures Mirrored(Step(c, e).world) <==> !Lapses(c, e)
  {
    hide Conflicts, Inserted, Posting, Identities;
    if e.Forgot? && e.device !in c.world.devices {
      assert c.world.devices - {e.device} == c.world.devices;
    }
  }

  lemma {:induction false} MirroredThroughout(events: seq<Event>, k: nat)
    requires k <= |events| && forall j :: 0 <= j < k ==> !Lapses(At(events, j), events[j])
    ensures Mirrored(At(events, k).world)
  {
    hide Step, Lapses;
    if k > 0 {
      MirroredThroughout(events, k - 1);
      MirrorLapsesIff(At(events, k - 1), events[k - 1]);
    }
  }
}
