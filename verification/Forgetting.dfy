/** Forgetting a phone (service.rs, qr_network.rs): the peer table loses it first and its parked
    sessions go next, while connections act on the peer table as they read it. The pool and the
    pairing decision are those of their own models, joined here. */
module Forgetting {
  import opened Common
  import Pairing
  import Pool = SessionPool

  /** A connection, by what it has read: the armed code, and whether it knows the phone it speaks to. */
  datatype Visitor =
    | Arrived(armed: Option<Pairing.Bootstrap>)
    | LookedUp(armed: Option<Pairing.Bootstrap>, claimed: string, known: Option<seq<byte>>)
    | Gone

  datatype House = House(clock: nat, peers: map<string, seq<byte>>, visitors: map<nat, Visitor>, pool: Pool.Ledger)

  datatype Event =
    | PeersSet(peers: map<string, seq<byte>>)
    | Came(visitor: nat, armed: Option<Pairing.Bootstrap>)
    | Asked(visitor: nat, claimed: string)
    | Parked(visitor: nat, handshake: Pairing.Handshake, credential: Option<string>, socket: nat, now: nat,
             answering: set<nat>)
    | Ended(visitor: nat)
    | PoolStep(step: Pool.Step)

  /** The park that a connection's end leads to. */
  function ParkOf(e: Event): Pool.Step
    requires e.Parked? && e.handshake.Completed?
  {
    Pool.Step.Park(Pool.SessionKey(e.handshake.deviceId, e.credential), e.socket, e.now, e.answering)
  }

  function ClockAfter(clock: nat, step: Pool.Step): nat {
    if step.Discard? then clock else step.now
  }

  /** A connection parks when the pairing decision says so, under the device whose identity its
      handshake proved. A request names a device that the store holds, and the peer table is the
      store's while a request runs. */
  ghost predicate Moves(idleTimeout: nat, h: House, e: Event, h': House) {
    match e
    case PeersSet(peers) => h' == h.(peers := peers)
    case Came(n, armed) => n !in h.visitors && h' == h.(visitors := h.visitors[n := Arrived(armed)])
    case Asked(n, claimed) =>
      && n in h.visitors && h.visitors[n].Arrived?
      && var known := Pairing.LookUp(h.peers, claimed);
        h' == h.(visitors := h.visitors[n := LookedUp(h.visitors[n].armed, claimed, known)])
    case Parked(n, handshake, credential, socket, now, answering) =>
      && n in h.visitors && h.visitors[n].LookedUp? && h.clock <= now
      && Pairing.Decide(h.visitors[n].armed, h.visitors[n].known, handshake) == Pairing.Parks
      && handshake.Completed? && Pairing.Presents(h.visitors[n].claimed, h.visitors[n].known, handshake)
      && Pool.Next(idleTimeout, h.pool, ParkOf(e), h'.pool)
      && h' == h.(clock := now, visitors := h.visitors[n := Gone], pool := h'.pool)
    case Ended(n) => n in h.visitors && h' == h.(visitors := h.visitors[n := Gone])
    case PoolStep(step) =>
      && !step.Park? && h.clock <= ClockAfter(h.clock, step)
      && (step.Take? ==> step.device in h.peers)
      && Pool.Next(idleTimeout, h.pool, step, h'.pool)
      && h' == h.(clock := ClockAfter(h.clock, step), pool := h'.pool)
  }

  ghost predicate Run(idleTimeout: nat, houses: seq<House>, events: seq<Event>) {
    && |houses| == |events| + 1
    && forall k :: 0 <= k < |events| ==> Moves(idleTimeout, houses[k], events[k], houses[k + 1])
  }

  ghost predicate HasSession(h: House, device: string) {
    exists key :: key in h.pool.sessions && key.device == device
  }

  /** The service has forgotten the device: neither the peer table nor the pool has it. */
  ghost predicate Forgotten(h: House, device: string) {
    device !in h.peers && !HasSession(h, device)
  }

  /** Nobody pairs the device again. */
  ghost predicate StaysForgotten(events: seq<Event>, device: string) {
    forall k :: 0 <= k < |events| && events[k].PeersSet? ==> device !in events[k].peers
  }

  /** A connection that looked the device up while it was still known, and has not ended. */
  predicate Lingers(h: House, n: nat, device: string) {
    n in h.visitors && h.visitors[n].LookedUp? && h.visitors[n].claimed == device && h.visitors[n].known.Some?
  }

  /** The sessions a request can be answered with, and the one it is answered with. */
  function Offered(idleTimeout: nat, h: House, e: Event): Pool.Sessions
    requires e.PoolStep? && e.step.Take?
  {
    Pool.Healthy(h.pool.sessions, e.step.now, idleTimeout, e.step.answering)
  }

  function Answer(idleTimeout: nat, h: House, e: Event): Option<Pool.ParkedSession>
    requires e.PoolStep? && e.step.Take?
  {
    var offered := Offered(idleTimeout, h, e);
    match Pool.Match(offered, e.step.device, e.step.credential)
    case None => None
    case Some(key) => Some(offered[key])
  }

  /** A request for the device that is answered over this socket. */
  predicate AnswersOver(idleTimeout: nat, h: House, e: Event, device: string, socket: nat) {
    && e.PoolStep? && e.step.Take? && e.step.device == device
    && var session := Answer(idleTimeout, h, e); session.Some? && session.value.socket == socket
  }

  /** Taking the device from the peer table first and its sessions next does forget it. */
  lemma ForgetForgets(idleTimeout: nat, h: House, h': House, device: string)
    requires device !in h.peers && Moves(idleTimeout, h, PoolStep(Pool.Discard(device)), h')
    ensures Forgotten(h', device)
  {
  }

  /** A session that a request at this time can use. */
  ghost predicate Usable(idleTimeout: nat, h: House, step: Pool.Step, key: Pool.SessionKey)
    requires step.Take?
  {
    && key in h.pool.sessions
    && step.now < h.pool.sessions[key].parkedAt + idleTimeout && h.pool.sessions[key].socket in step.answering
  }

  /** Over which socket a request is answered: that of the session parked for the device and the
      credential, if it can be used, and otherwise that of one parked for no credential, if that can. */
  lemma {:induction false} AnswersOverIff(idleTimeout: nat, h: House, step: Pool.Step, device: string, socket: nat)
    requires step.Take?
    ensures AnswersOver(idleTimeout, h, PoolStep(step), device, socket)
       <==> step.device == device
            && var exact, unnamed := Pool.SessionKey(device, Some(step.credential)), Pool.SessionKey(device, None);
              if Usable(idleTimeout, h, step, exact) then h.pool.sessions[exact].socket == socket
              else Usable(idleTimeout, h, step, unnamed) && h.pool.sessions[unnamed].socket == socket
  {
  }

  // ---- The clock ----

  function Reading(e: Event): Option<nat> {
    match e
    case Parked(_, _, _, _, now, _) => Some(now)
    case PoolStep(Park(_, _, now, _)) => Some(now)
    case PoolStep(Take(_, _, now, _)) => Some(now)
    case PoolStep(Sweep(now, _)) => Some(now)
    case _ => None
  }

  lemma ClockMoves(idleTimeout: nat, h: House, e: Event, h': House)
    requires Moves(idleTimeout, h, e, h')
    ensures if Reading(e).Some? then h.clock <= Reading(e).value == h'.clock else h'.clock == h.clock
  {
    hide Pool.Next, Pairing.Decide, Pairing.Presents;
  }

  /** In every run the readings of the clock never go back. */
  lemma {:induction false} ReadingsRise(idleTimeout: nat, houses: seq<House>, events: seq<Event>, i: nat, k: nat)
    requires Run(idleTimeout, houses, events) && i < k <= |events| && Reading(events[i]).Some?
    ensures |houses| == |events| + 1 && Reading(events[i]).value <= houses[k].clock
    ensures k < |events| && Reading(events[k]).Some? ==> Reading(events[i]).value <= Reading(events[k]).value
    decreases k
  {
    hide Moves;
    ClockMoves(idleTimeout, houses[k - 1], events[k - 1], houses[k]);
    if i < k - 1 {
      ReadingsRise(idleTimeout, houses, events, i, k - 1);
    }
    if k < |events| {
      ClockMoves(idleTimeout, houses[k], events[k], houses[k + 1]);
    }
  }

  // ---- Who lingers ----

  predicate Ends(e: Event, n: nat) {
    (e.Parked? || e.Ended?) && e.visitor == n
  }

  /** Among the first `k` events, the connection asked for the device while the peer table had it,
      and none after that ended the connection. */
  ghost predicate AskedWhileKnown(houses: seq<House>, events: seq<Event>, k: nat, n: nat, device: string) {
    exists j :: 0 <= j < k <= |events| < |houses| && events[j] == Asked(n, device) && device in houses[j].peers
      && forall i :: j < i < k ==> !Ends(events[i], n)
  }

  lemma StepLingers(idleTimeout: nat, h: House, e: Event, h': House, n: nat, device: string)
    requires Moves(idleTimeout, h, e, h')
    ensures Lingers(h', n, device)
       <==> (Lingers(h, n, device) && !Ends(e, n)) || (e == Asked(n, device) && device in h.peers)
  {
    hide Pool.Next, Pairing.Decide, Pairing.Presents;
  }

  /** From a house without visitors: those who linger are exactly the connections that asked for the
      device while the peer table had it and have not ended since. */
  lemma {:induction false} LingersIff(idleTimeout: nat, houses: seq<House>, events: seq<Event>, k: nat, n: nat,
                                      device: string)
    requires Run(idleTimeout, houses, events) && k <= |events| && houses[0].visitors == map[]
    ensures |houses| == |events| + 1
    ensures Lingers(houses[k], n, device) <==> AskedWhileKnown(houses, events, k, n, device)
  {
    hide Moves, Ends;
    if k > 0 {
      LingersIff(idleTimeout, houses, events, k - 1, n, device);
      StepLingers(idleTimeout, houses[k - 1], events[k - 1], houses[k], n, device);
      if AskedWhileKnown(houses, events, k, n, device) {
        var j :| 0 <= j < k && events[j] == Asked(n, device) && device in houses[j].peers
          && forall i :: j < i < k ==> !Ends(events[i], n);
        assert j == k - 1 || AskedWhileKnown(houses, events, k - 1, n, device);
      }
    }
  }

  // ---- A forgotten device is unknown until it is paired again ----

  lemma {:induction false} UnknownThroughout(idleTimeout: nat, houses: seq<House>, events: seq<Event>, k: nat,
                                             device: string)
    requires Run(idleTimeout, houses, events) && k <= |events|
    requires device !in houses[0].peers && StaysForgotten(events, device)
    ensures |houses| == |events| + 1 && device !in houses[k].peers
  {
    hide Pool.Next, Pairing.Decide;
    if k > 0 {
      UnknownThroughout(idleTimeout, houses, events, k - 1, device);
      assert Moves(idleTimeout, houses[k - 1], events[k - 1], houses[k]);
    }
  }

  // ---- Only a lingering connection parks a session of a forgotten device ----

  lemma ParksOnlyKnown(armed: Option<Pairing.Bootstrap>, known: Option<seq<byte>>, handshake: Pairing.Handshake)
    requires Pairing.Decide(armed, known, handshake) == Pairing.Parks
    ensures known.Some?
  {
  }

  ghost predicate Shut(h: House, device: string) {
    Forgotten(h, device) && forall n :: n in h.visitors ==> !Lingers(h, n, device)
  }

  lemma PoolKeepsOut(idleTimeout: nat, l: Pool.Ledger, step: Pool.Step, l': Pool.Ledger, device: string)
    requires Pool.Next(idleTimeout, l, step, l')
    requires forall key :: key in l.sessions ==> key.device != device
    requires step.Park? ==> step.key.device != device
    ensures forall key :: key in l'.sessions ==> key.device != device
  {
  }

  lemma ShutStays(idleTimeout: nat, h: House, e: Event, h': House, device: string)
    requires Shut(h, device) && Moves(idleTimeout, h, e, h')
    requires e.PeersSet? ==> device !in e.peers
    ensures Shut(h', device)
  {
    hide Pool.Next, Pairing.Decide;
    if e.Parked? {
      var visitor := h.visitors[e.visitor];
      ParksOnlyKnown(visitor.armed, visitor.known, e.handshake);
      assert !Lingers(h, e.visitor, device);
      PoolKeepsOut(idleTimeout, h.pool, ParkOf(e), h'.pool, device);
    } else if e.PoolStep? {
      PoolKeepsOut(idleTimeout, h.pool, e.step, h'.pool, device);
    }
    forall n | n in h'.visitors ensures !Lingers(h', n, device) {
      if n in h.visitors {
        assert !Lingers(h, n, device);
      }
    }
  }

  lemma {:induction false} ShutForGood(idleTimeout: nat, houses: seq<House>, events: seq<Event>, k: nat, device: string)
    requires Run(idleTimeout, houses, events) && k <= |events|
    requires Shut(houses[0], device) && StaysForgotten(events, device)
    ensures |houses| == |events| + 1 && Shut(houses[k], device)
  {
    hide Moves, Shut;
    if k > 0 {
      ShutForGood(idleTimeout, houses, events, k - 1, device);
      ShutStays(idleTimeout, houses[k - 1], events[k - 1], houses[k], device);
    }
  }

  // ---- And a lingering one does ----

  /** What a lingering connection parks, and the pool it parks it in. */
  lemma Parking(idleTimeout: nat, l: Pool.Ledger, key: Pool.SessionKey, socket: nat, now: nat)
    returns (l': Pool.Ledger)
    requires forall other :: other in l.sessions ==> other.device != key.device
    requires socket !in l.homes
    ensures Pool.Next(idleTimeout, l, Pool.Step.Park(key, socket, now, {socket}), l')
    ensures key in l'.sessions && l'.sessions[key] == Pool.ParkedSession(socket, now)
  {
    var swept := Pool.AfterSweep(l, now, idleTimeout, {socket});
    var kept := swept.sessions;
    assert Pool.OfDevice(kept, key.device) == {};
    assert Pool.MakesRoom(swept.sessions, kept, key);
    l' := Pool.AfterPark(swept, kept, key, socket, now);
  }

  /** A lingering connection can end at once in a parked session of the device. */
  lemma LingeringParks(idleTimeout: nat, h: House, n: nat, device: string, credential: string)
    returns (parked: Event, h': House)
    requires Forgotten(h, device) && Lingers(h, n, device)
    ensures parked.Parked? && parked.visitor == n && Moves(idleTimeout, h, parked, h')
    ensures h'.clock == h.clock && h'.peers == h.peers
    ensures var key := Pool.SessionKey(device, Some(credential));
      key in h'.pool.sessions && h'.pool.sessions[key] == Pool.ParkedSession(parked.socket, h.clock)
  {
    hide Pool.Next;
    var socket := Fresh(h.pool.homes.Keys);
    var known := h.visitors[n].known.value;
    var handshake := Pairing.Completed(device, known, Some(Pairing.Resume), Pairing.Silent, "");
    parked := Parked(n, handshake, Some(credential), socket, h.clock, {socket});
    var pool := Parking(idleTimeout, h.pool, Pool.SessionKey(device, Some(credential)), socket, h.clock);
    h' := h.(visitors := h.visitors[n := Gone], pool := pool);
  }

  /** The device is back in the pool at the end of a run that never pairs it again. */
  ghost predicate Returns(idleTimeout: nat, h: House, houses: seq<House>, events: seq<Event>, device: string) {
    && Run(idleTimeout, houses, events) && houses[0] == h && StaysForgotten(events, device)
    && HasSession(houses[|events|], device)
  }

  /** Unless the device is paired again, a session of it is parked after the forgetting exactly when
      some connection looked the device up before it was forgotten and has not ended. */
  lemma {:induction false} ForgottenReturnsIff(idleTimeout: nat, h: House, device: string)
    requires Forgotten(h, device)
    ensures (exists houses, events :: Returns(idleTimeout, h, houses, events, device))
       <==> (exists n :: Lingers(h, n, device))
  {
    hide Moves;
    if n :| Lingers(h, n, device) {
      var parked, h' := LingeringParks(idleTimeout, h, n, device, "");
      assert Returns(idleTimeout, h, [h, h'], [parked], device);
    } else {
      forall houses, events ensures !Returns(idleTimeout, h, houses, events, device) {
        if Returns(idleTimeout, h, houses, events, device) {
          ShutForGood(idleTimeout, houses, events, |events|, device);
        }
      }
    }
  }

  // ---- Once it is paired again, what lingered can answer ----

  /** A run that ends in a request answered over the socket that an earlier step parked for a
      connection whose look-up was made by the start, while the peer table gives the device this
      identity. */
  ghost predicate AnsweredStale(idleTimeout: nat, h: House, houses: seq<House>, events: seq<Event>, device: string,
                                identity: seq<byte>) {
    && Run(idleTimeout, houses, events) && houses[0] == h && events != []
    && var last := |events| - 1;
      && device in houses[last].peers && houses[last].peers[device] == identity
      && exists j :: 0 <= j < last && ParkedStale(h, events[j])
           && AnswersOver(idleTimeout, houses[last], events[last], device, events[j].socket)
  }

  predicate ParkedStale(h: House, e: Event) {
    e.Parked? && e.visitor in h.visitors && h.visitors[e.visitor].LookedUp?
  }

  lemma MoveKeepsVisitor(idleTimeout: nat, h: House, e: Event, h': House, n: nat)
    requires Moves(idleTimeout, h, e, h') && n in h.visitors && !h.visitors[n].Arrived?
    ensures n in h'.visitors && (h'.visitors[n] == h.visitors[n] || h'.visitors[n] == Gone)
  {
    hide Pool.Next, Pairing.Decide;
  }

  /** A look-up stands as it was made until its connection ends. */
  lemma {:induction false} LookUpStands(idleTimeout: nat, houses: seq<House>, events: seq<Event>, k: nat, n: nat)
    requires Run(idleTimeout, houses, events) && k <= |events|
    requires n in houses[0].visitors && houses[0].visitors[n].LookedUp?
    ensures |houses| == |events| + 1 && n in houses[k].visitors
    ensures houses[k].visitors[n] == houses[0].visitors[n] || houses[k].visitors[n] == Gone
  {
    hide Moves;
    if k > 0 {
      LookUpStands(idleTimeout, houses, events, k - 1, n);
      MoveKeepsVisitor(idleTimeout, houses[k - 1], events[k - 1], houses[k], n);
    }
  }

  lemma MoveKeepsPool(idleTimeout: nat, h: House, e: Event, h': House)
    requires Moves(idleTimeout, h, e, h') && Pool.Inv(h.pool)
    ensures Pool.Inv(h'.pool) && Pool.Extends(h.pool, h'.pool)
  {
    hide Pool.Next, Pairing.Decide, Pool.Inv;
    if e.Parked? {
      Pool.StepKeepsInv(idleTimeout, h.pool, ParkOf(e), h'.pool);
    } else if e.PoolStep? {
      Pool.StepKeepsInv(idleTimeout, h.pool, e.step, h'.pool);
    }
  }

  lemma {:induction false} PoolStands(idleTimeout: nat, houses: seq<House>, events: seq<Event>, j: nat, k: nat)
    requires Run(idleTimeout, houses, events) && j <= k <= |events| && Pool.Inv(houses[0].pool)
    ensures |houses| == |events| + 1
    ensures Pool.Inv(houses[k].pool) && Pool.Extends(houses[j].pool, houses[k].pool)
    decreases k
  {
    hide Moves, Pool.Inv;
    if k > 0 {
      PoolStands(idleTimeout, houses, events, if j < k then j else k - 1, k - 1);
      MoveKeepsPool(idleTimeout, houses[k - 1], events[k - 1], houses[k]);
    }
  }

  /** A park writes down whose session the socket carries. */
  lemma ParkIsBooked(idleTimeout: nat, h: House, e: Event, h': House)
    requires Moves(idleTimeout, h, e, h') && e.Parked?
    ensures e.visitor in h.visitors && Lingers(h, e.visitor, h.visitors[e.visitor].claimed)
    ensures e.socket in h'.pool.homes && h'.pool.homes[e.socket].device == h.visitors[e.visitor].claimed
  {
    hide Pairing.Decide, Pool.AfterSweep, Pool.MakesRoom;
    var visitor := h.visitors[e.visitor];
    ParksOnlyKnown(visitor.armed, visitor.known, e.handshake);
  }

  /** And the book says which device the session that answers is parked for. */
  lemma AnswerIsBooked(idleTimeout: nat, h: House, e: Event, device: string, socket: nat)
    requires Pool.Inv(h.pool) && AnswersOver(idleTimeout, h, e, device, socket)
    ensures socket in h.pool.homes && h.pool.homes[socket].device == device
  {
    hide Pool.WithinCap;
    var key := Pool.Match(Offered(idleTimeout, h, e), e.step.device, e.step.credential).value;
    assert key in h.pool.sessions && key.device == device;
  }

  /** Until the device is paired again no request, whatever device it names, is answered over a socket
      that was ever parked for it, whoever lingers and whatever is in the pool. */
  lemma {:induction false} NothingIsAsked(idleTimeout: nat, houses: seq<House>, events: seq<Event>, k: nat,
                                          device: string, named: string, socket: nat)
    requires Run(idleTimeout, houses, events) && k < |events| && Pool.Inv(houses[0].pool)
    requires device !in houses[0].peers && StaysForgotten(events, device)
    requires AnswersOver(idleTimeout, houses[k], events[k], named, socket)
    ensures |houses| == |events| + 1
    ensures socket in houses[k].pool.homes && houses[k].pool.homes[socket].device == named != device
  {
    hide Pool.Next, Pairing.Decide, Answer, Pool.Inv;
    UnknownThroughout(idleTimeout, houses, events, k, device);
    assert Moves(idleTimeout, houses[k], events[k], houses[k + 1]);
    PoolStands(idleTimeout, houses, events, 0, k);
    AnswerIsBooked(idleTimeout, houses[k], events[k], named, socket);
  }

  lemma StaleLingered(idleTimeout: nat, h: House, houses: seq<House>, events: seq<Event>, device: string,
                      identity: seq<byte>) returns (n: nat)
    requires AnsweredStale(idleTimeout, h, houses, events, device, identity) && Pool.Inv(h.pool)
    ensures Lingers(h, n, device)
  {
    hide Moves, Pool.Inv, AnswersOver;
    var last := |events| - 1;
    var j :| 0 <= j < last && ParkedStale(h, events[j])
      && AnswersOver(idleTimeout, houses[last], events[last], device, events[j].socket);
    n := events[j].visitor;
    LookUpStands(idleTimeout, houses, events, j, n);
    ParkIsBooked(idleTimeout, houses[j], events[j], houses[j + 1]);
    PoolStands(idleTimeout, houses, events, j + 1, last);
    AnswerIsBooked(idleTimeout, houses[last], events[last], device, events[j].socket);
  }

  lemma TakingAnswers(idleTimeout: nat, h: House, device: string, credential: string, socket: nat)
    returns (e: Event, h': House)
    requires idleTimeout > 0 && device in h.peers
    requires var key := Pool.SessionKey(device, Some(credential));
      key in h.pool.sessions && h.pool.sessions[key] == Pool.ParkedSession(socket, h.clock)
    ensures Moves(idleTimeout, h, e, h') && AnswersOver(idleTimeout, h, e, device, socket)
  {
    hide Pool.AfterTake, Pool.AfterSweep;
    var step := Pool.Step.Take(device, credential, h.clock, {socket});
    e := PoolStep(step);
    h' := h.(pool := Pool.AfterTake(Pool.AfterSweep(h.pool, h.clock, idleTimeout, {socket}), device, credential));
  }

  /** A lingering connection parks, the device is paired again under any identity, and the next
      request for it is answered over the channel that was opened before. */
  lemma LingeringAnswers(idleTimeout: nat, h: House, n: nat, device: string, credential: string, identity: seq<byte>)
    returns (houses: seq<House>, events: seq<Event>)
    requires idleTimeout > 0 && Forgotten(h, device) && Lingers(h, n, device)
    ensures AnsweredStale(idleTimeout, h, houses, events, device, identity)
  {
    var parked, between := LingeringParks(idleTimeout, h, n, device, credential);
    var paired := between.(peers := between.peers[device := identity]);
    assert Moves(idleTimeout, between, PeersSet(paired.peers), paired);
    var take, after := TakingAnswers(idleTimeout, paired, device, credential, parked.socket);
    houses, events := [h, between, paired, after], [parked, PeersSet(paired.peers), take];
    assert events[0] == parked && events[2] == take && houses[2] == paired;
  }

  /** Whatever identity the device is paired under again, a request for it can be answered over a
      channel whose look-up was made by the time the device was forgotten exactly when some
      connection lingered then. The pool is sound, as it is from its start on after every step. */
  lemma {:induction false} AnsweredStaleIff(idleTimeout: nat, h: House, device: string, identity: seq<byte>)
    requires idleTimeout > 0 && Forgotten(h, device) && Pool.Inv(h.pool)
    ensures (exists houses, events :: AnsweredStale(idleTimeout, h, houses, events, device, identity))
       <==> (exists n :: Lingers(h, n, device))
  {
    hide AnsweredStale, Forgotten, Pool.Inv;
    if n :| Lingers(h, n, device) {
      var houses, events := LingeringAnswers(idleTimeout, h, n, device, "", identity);
    } else {
      forall houses, events ensures !AnsweredStale(idleTimeout, h, houses, events, device, identity) {
        if AnsweredStale(idleTimeout, h, houses, events, device, identity) {
          var n := StaleLingered(idleTimeout, h, houses, events, device, identity);
        }
      }
    }
  }
}
