/** The pool of parked sessions (qr_network.rs): parking, taking, sweeping, evicting, discarding.

    A parked session is identified by its socket. Clock readings and the outcome of the
    liveness probe are inputs. A ledger, kept beside the pool for the proofs only, records
    where every session was parked and how it left. */
module SessionPool {
  import opened Common

  const MAX_SESSIONS_PER_DEVICE := 8

  /** What a session is parked under. A phone that names no credential parks under none. */
  datatype SessionKey = SessionKey(device: string, credential: Option<string>)

  datatype ParkedSession = ParkedSession(socket: nat, parkedAt: nat)

  type Sessions = map<SessionKey, ParkedSession>

  /** How a session left the pool. */
  datatype Exit =
    | Taken(device: string, credential: string)
    | Replaced(successor: nat)
    | Evicted(newcomer: nat)
    | Swept
    | Discarded(device: string)

  /** The pool, with every socket ever parked and every departure so far. */
  datatype Ledger = Ledger(sessions: Sessions, homes: map<nat, SessionKey>, exits: map<nat, Exit>)

  const EMPTY := Ledger(map[], map[], map[])

  function OfDevice(sessions: Sessions, device: string): (r: set<SessionKey>)
    ensures forall k :: k in r <==> k in sessions && k.device == device
  {
    set k | k in sessions && k.device == device
  }

  // ---- The source's operations on the session map ----

  predicate Stays(session: ParkedSession, now: nat, idleTimeout: nat, answering: set<nat>) {
    now - session.parkedAt < idleTimeout && session.socket in answering
  }

  /** Sessions inside their window whose phone still has its end open. */
  function Healthy(sessions: Sessions, now: nat, idleTimeout: nat, answering: set<nat>): Sessions {
    map k | k in sessions && Stays(sessions[k], now, idleTimeout, answering) :: sessions[k]
  }

  function Without(sessions: Sessions, device: string): Sessions {
    map k | k in sessions && k.device != device :: sessions[k]
  }

  /** The key a request is answered from: its credential's session, or an unnamed one. */
  function Match(sessions: Sessions, device: string, credential: string): Option<SessionKey> {
    if SessionKey(device, Some(credential)) in sessions then Some(SessionKey(device, Some(credential)))
    else if SessionKey(device, None) in sessions then Some(SessionKey(device, None))
    else None
  }

  predicate IsOldest(sessions: Sessions, device: string, key: SessionKey) {
    && key in sessions && key.device == device
    && forall k :: k in sessions && k.device == device ==> sessions[key].parkedAt <= sessions[k].parkedAt
  }

  /** The effect of the cap: only this device loses sessions, the oldest first, and no more
      than needed for one more to fit. */
  ghost predicate Capped(before: Sessions, after: Sessions, device: string) {
    && (forall k :: k in after ==> k in before && after[k] == before[k])
    && (forall k :: k in before && k !in after ==> k.device == device)
    && (forall k, l :: k in before && k !in after && l in after && l.device == device
          ==> before[k].parkedAt <= before[l].parkedAt)
    && |OfDevice(after, device)| == Min(|OfDevice(before, device)|, 7)
  }

  lemma {:induction false} OldestExists(sessions: Sessions, keys: set<SessionKey>) returns (oldest: SessionKey)
    requires keys != {} && keys <= sessions.Keys
    ensures oldest in keys && forall k :: k in keys ==> sessions[oldest].parkedAt <= sessions[k].parkedAt
    decreases |keys|
  {
    var first :| first in keys;
    var rest := keys - {first};
    oldest := first;
    if rest != {} {
      var other := OldestExists(sessions, rest);
      if sessions[other].parkedAt < sessions[first].parkedAt {
        oldest := other;
      }
    }
    assert forall k :: k in keys ==> k == first || k in rest;
  }

  lemma OneFewer(sessions: Sessions, key: SessionKey)
    requires key in sessions
    ensures |OfDevice(sessions - {key}, key.device)| == |OfDevice(sessions, key.device)| - 1
  {
    assert OfDevice(sessions, key.device) == OfDevice(sessions - {key}, key.device) + {key};
  }

  // ---- The pool as a ledger of steps ----

  /** The sockets in `before` whose key is not in `after`. */
  function Gone(before: Sessions, after: Sessions): set<nat> {
    set k | k in before && k !in after :: before[k].socket
  }

  function Mark(exits: map<nat, Exit>, sockets: set<nat>, exit: Exit): map<nat, Exit> {
    exits + (map s | s in sockets :: exit)
  }

  lemma MarkTwice(exits: map<nat, Exit>, a: set<nat>, b: set<nat>, exit: Exit)
    ensures Mark(Mark(exits, a, exit), b, exit) == Mark(exits, a + b, exit)
  {
  }

  /** Whatever is in the pool and not in `after` leaves, all for one reason. */
  function Leave(l: Ledger, after: Sessions, exit: Exit): Ledger {
    Ledger(after, l.homes, Mark(l.exits, Gone(l.sessions, after), exit))
  }

  lemma LeaveShape(l: Ledger, after: Sessions, exit: Exit)
    ensures Leave(l, after, exit).sessions == after && Leave(l, after, exit).homes == l.homes
  {
  }

  function Enter(l: Ledger, key: SessionKey, socket: nat, now: nat): Ledger {
    Ledger(l.sessions[key := ParkedSession(socket, now)], l.homes[socket := key], l.exits)
  }

  datatype Step =
    | Park(key: SessionKey, socket: nat, now: nat, answering: set<nat>)
    | Take(device: string, credential: string, now: nat, answering: set<nat>)
    | Sweep(now: nat, answering: set<nat>)
    | Discard(device: string)

  function AfterSweep(l: Ledger, now: nat, idleTimeout: nat, answering: set<nat>): Ledger {
    Leave(l, Healthy(l.sessions, now, idleTimeout, answering), Swept)
  }

  /** Parking after the sweep, with `kept` the sessions the cap left. */
  function AfterPark(l: Ledger, kept: Sessions, key: SessionKey, socket: nat, now: nat): Ledger {
    Enter(Leave(Leave(l, kept, Evicted(socket)), kept - {key}, Replaced(socket)), key, socket, now)
  }

  /** What the cap may leave when `key` is about to be parked. A key already held needs no room. */
  ghost predicate MakesRoom(before: Sessions, kept: Sessions, key: SessionKey) {
    if key in before then kept == before else Capped(before, kept, key.device)
  }

  function AfterTake(l: Ledger, device: string, credential: string): Ledger {
    match Match(l.sessions, device, credential)
    case None => l
    case Some(key) => Leave(l, l.sessions - {key}, Taken(device, credential))
  }

  ghost predicate Next(idleTimeout: nat, l: Ledger, step: Step, l': Ledger) {
    match step
    case Park(key, socket, now, answering) =>
      var swept := AfterSweep(l, now, idleTimeout, answering);
      && socket !in l.homes
      && exists kept :: MakesRoom(swept.sessions, kept, key) && l' == AfterPark(swept, kept, key, socket, now)
    case Take(device, credential, now, answering) =>
      l' == AfterTake(AfterSweep(l, now, idleTimeout, answering), device, credential)
    case Sweep(now, answering) => l' == AfterSweep(l, now, idleTimeout, answering)
    case Discard(device) => l' == Leave(l, Without(l.sessions, device), Discarded(device))
  }

  class Pool {
    const idleTimeout: nat
    var sessions: Sessions
    ghost var homes: map<nat, SessionKey>
    ghost var exits: map<nat, Exit>

    ghost function Book(): Ledger
      reads this
    {
      Ledger(sessions, homes, exits)
    }

    constructor (idleTimeout: nat)
      ensures this.idleTimeout == idleTimeout && Book() == EMPTY
    {
      this.idleTimeout := idleTimeout;
      sessions, homes, exits := map[], map[], map[];
    }

    ghost method Record(after: Sessions, exit: Exit)
      modifies this`exits
      ensures exits == Leave(old(Book()), after, exit).exits
    {
      exits := Leave(Book(), after, exit).exits;
    }

    method DiscardStale(now: nat, answering: set<nat>)
      modifies this
      ensures Book() == AfterSweep(old(Book()), now, idleTimeout, answering)
      ensures forall k :: k in sessions <==>
        k in old(sessions) && now < old(sessions)[k].parkedAt + idleTimeout && old(sessions)[k].socket in answering
      ensures forall k :: k in sessions ==> sessions[k] == old(sessions)[k]
      ensures homes == old(homes)
    {
      var healthy := Healthy(sessions, now, idleTimeout, answering);
      Record(healthy, Swept);
      sessions := healthy;
    }

    method EnforceSessionCap(device: string, ghost newcomer: nat)
      modifies this
      ensures Capped(old(sessions), sessions, device)
      ensures Book() == Leave(old(Book()), sessions, Evicted(newcomer))
      ensures homes == old(homes)
    {
      LeaveNothing(Book(), Evicted(newcomer));
      while |OfDevice(sessions, device)| >= MAX_SESSIONS_PER_DEVICE
        invariant Evicting(old(sessions), sessions, device)
        invariant Book() == Leave(old(Book()), sessions, Evicted(newcomer))
        invariant homes == old(homes)
        decreases |OfDevice(sessions, device)|
      {
        ghost var least := OldestExists(sessions, OfDevice(sessions, device));
        assert least in sessions && IsOldest(sessions, device, least);
        var oldest :| oldest in sessions && IsOldest(sessions, device, oldest);
        OneFewer(sessions, oldest);
        EvictOne(old(sessions), sessions, device, oldest);
        LeaveTwice(old(Book()), sessions, sessions - {oldest}, Evicted(newcomer));
        Record(sessions - {oldest}, Evicted(newcomer));
        sessions := sessions - {oldest};
      }
    }

    method Park(key: SessionKey, socket: nat, now: nat, answering: set<nat>)
      requires socket !in homes
      modifies this
      ensures Next(idleTimeout, old(Book()), Step.Park(key, socket, now, answering), Book())
      ensures key in sessions && sessions[key] == ParkedSession(socket, now)
    {
      hide Capped, Healthy, Leave, OfDevice;
      DiscardStale(now, answering);
      ghost var swept := Book();
      LeaveNothing(swept, Evicted(socket));
      if key !in sessions {
        EnforceSessionCap(key.device, socket);
      }
      ghost var kept := sessions;
      Record(sessions - {key}, Replaced(socket));
      homes := homes[socket := key];
      assert (kept - {key})[key := ParkedSession(socket, now)] == kept[key := ParkedSession(socket, now)];
      sessions := sessions[key := ParkedSession(socket, now)];
      assert MakesRoom(swept.sessions, kept, key);
      LeaveShape(swept, kept, Evicted(socket));
      LeaveShape(Leave(swept, kept, Evicted(socket)), kept - {key}, Replaced(socket));
      assert Book() == AfterPark(swept, kept, key, socket, now);
    }

    method TakeMatching(device: string, credential: string) returns (session: Option<ParkedSession>)
      modifies this
      ensures Book() == AfterTake(old(Book()), device, credential)
      ensures session == match Match(old(sessions), device, credential)
                         case None => None
                         case Some(key) => Some(old(sessions)[key])
    {
      var exact := SessionKey(device, Some(credential));
      if exact in sessions {
        session := Some(sessions[exact]);
        Record(sessions - {exact}, Taken(device, credential));
        sessions := sessions - {exact};
        return;
      }
      var unnamed := SessionKey(device, None);
      if unnamed in sessions {
        session := Some(sessions[unnamed]);
        Record(sessions - {unnamed}, Taken(device, credential));
        sessions := sessions - {unnamed};
        return;
      }
      session := None;
    }

    /** One look of `take_session` at the pool. */
    method Take(device: string, credential: string, now: nat, answering: set<nat>)
      returns (session: Option<ParkedSession>)
      modifies this
      ensures Next(idleTimeout, old(Book()), Step.Take(device, credential, now, answering), Book())
      ensures var healthy := Healthy(old(sessions), now, idleTimeout, answering);
        session == match Match(healthy, device, credential)
                   case None => None
                   case Some(key) => Some(healthy[key])
      ensures session.Some? ==>
        now < session.value.parkedAt + idleTimeout && session.value.socket in answering
    {
      DiscardStale(now, answering);
      session := TakeMatching(device, credential);
    }

    method DiscardSessions(device: string)
      modifies this
      ensures Next(idleTimeout, old(Book()), Discard(device), Book())
    {
      var kept := Without(sessions, device);
      Record(kept, Discarded(device));
      sessions := kept;
    }
  }

  /** Partway through evicting: as `Capped`, but never below what fits. */
  ghost predicate Evicting(before: Sessions, after: Sessions, device: string) {
    && (forall k :: k in after ==> k in before && after[k] == before[k])
    && (forall k :: k in before && k !in after ==> k.device == device)
    && (forall k, l :: k in before && k !in after && l in after && l.device == device
          ==> before[k].parkedAt <= before[l].parkedAt)
    && |OfDevice(after, device)| >= Min(|OfDevice(before, device)|, MAX_SESSIONS_PER_DEVICE - 1)
    && (|OfDevice(before, device)| < MAX_SESSIONS_PER_DEVICE ==> after == before)
  }

  lemma EvictOne(before: Sessions, now: Sessions, device: string, oldest: SessionKey)
    requires Evicting(before, now, device) && IsOldest(now, device, oldest)
    requires |OfDevice(now, device)| >= MAX_SESSIONS_PER_DEVICE
    ensures Evicting(before, now - {oldest}, device)
  {
    OneFewer(now, oldest);
  }

  lemma LeaveNothing(l: Ledger, exit: Exit)
    ensures Leave(l, l.sessions, exit) == l
  {
    assert Gone(l.sessions, l.sessions) == {};
    assert Leave(l, l.sessions, exit).exits == l.exits;
  }

  lemma GoneInTwoSteps(l: Sessions, a: Sessions, b: Sessions)
    requires forall k :: k in a ==> k in l && a[k] == l[k]
    requires forall k :: k in b ==> k in a
    ensures Gone(l, b) == Gone(l, a) + Gone(a, b)
  {
    forall k | k in l && k !in b
      ensures l[k].socket in Gone(l, a) + Gone(a, b)
    {
      assert k in a ==> a[k].socket in Gone(a, b);
    }
  }

  lemma LeaveTwice(l: Ledger, a: Sessions, b: Sessions, exit: Exit)
    requires forall k :: k in a ==> k in l.sessions && a[k] == l.sessions[k]
    requires forall k :: k in b ==> k in a
    ensures Leave(Leave(l, a, exit), b, exit) == Leave(l, b, exit)
  {
    GoneInTwoSteps(l.sessions, a, b);
    hide Gone, Mark;
    MarkTwice(l.exits, Gone(l.sessions, a), Gone(a, b), exit);
  }

  // ---- Every run ----

  ghost predicate ExitFits(homes: map<nat, SessionKey>, socket: nat, exit: Exit)
    requires socket in homes
  {
    match exit
    case Taken(device, credential) =>
      && homes[socket].device == device
      && (homes[socket].credential == Some(credential) || homes[socket].credential == None)
    case Replaced(successor) => successor in homes && homes[successor] == homes[socket]
    case Evicted(newcomer) =>
      newcomer in homes && homes[newcomer].device == homes[socket].device && homes[newcomer] != homes[socket]
    case Swept => true
    case Discarded(device) => homes[socket].device == device
  }

  /** The pool is sound, with exits explained by `homes`, which may already name a socket on
      its way in. */
  ghost predicate Sound(l: Ledger, homes: map<nat, SessionKey>) {
    && (forall k :: k in l.sessions ==>
          var s := l.sessions[k].socket; s in l.homes && l.homes[s] == k && s !in l.exits)
    && (forall s :: s in l.homes && s !in l.exits ==> l.homes[s] in l.sessions && l.sessions[l.homes[s]].socket == s)
    && (forall s :: s in l.homes ==> s in homes && homes[s] == l.homes[s])
    && (forall s :: s in l.exits ==> s in l.homes && ExitFits(homes, s, l.exits[s]))
  }

  ghost predicate WithinCap(sessions: Sessions) {
    forall d :: |OfDevice(sessions, d)| <= 8
  }

  /** Every socket ever parked is either parked where it arrived or has left, never both, for a
      reason that fits it, and no device has more than eight sessions. */
  ghost predicate Inv(l: Ledger) {
    Sound(l, l.homes) && WithinCap(l.sessions)
  }

  /** Leaving is final: nothing that left comes back or changes its reason. */
  ghost predicate Extends(l: Ledger, l': Ledger) {
    && (forall s :: s in l.homes ==> s in l'.homes && l'.homes[s] == l.homes[s])
    && (forall s :: s in l.exits ==> s in l'.exits && l'.exits[s] == l.exits[s])
  }

  lemma FewerSessions(a: Sessions, b: Sessions)
    requires forall k :: k in b ==> k in a
    ensures forall d :: |OfDevice(b, d)| <= |OfDevice(a, d)|
  {
    forall d
      ensures |OfDevice(b, d)| <= |OfDevice(a, d)|
    {
      SubsetSize(OfDevice(b, d), OfDevice(a, d));
    }
  }

  lemma LeaveKeepsSound(l: Ledger, homes: map<nat, SessionKey>, after: Sessions, exit: Exit)
    requires Sound(l, homes)
    requires forall k :: k in after ==> k in l.sessions && after[k] == l.sessions[k]
    requires forall k :: k in l.sessions && k !in after ==> ExitFits(homes, l.sessions[k].socket, exit)
    ensures Sound(Leave(l, after, exit), homes) && Extends(l, Leave(l, after, exit))
  {
  }

  lemma SweepKeepsInv(l: Ledger, now: nat, idleTimeout: nat, answering: set<nat>)
    requires Inv(l)
    ensures Inv(AfterSweep(l, now, idleTimeout, answering)) && Extends(l, AfterSweep(l, now, idleTimeout, answering))
  {
    var healthy := Healthy(l.sessions, now, idleTimeout, answering);
    LeaveKeepsSound(l, l.homes, healthy, Swept);
    FewerSessions(l.sessions, healthy);
  }

  lemma EvictionIsSound(l: Ledger, kept: Sessions, key: SessionKey, socket: nat)
    requires Inv(l) && socket !in l.homes && MakesRoom(l.sessions, kept, key)
    ensures var evicted := Leave(l, kept, Evicted(socket));
      Sound(evicted, l.homes[socket := key]) && Extends(l, evicted)
  {
    LeaveKeepsSound(l, l.homes[socket := key], kept, Evicted(socket));
  }

  lemma ReplacementIsSound(l: Ledger, homes: map<nat, SessionKey>, key: SessionKey, socket: nat)
    requires Sound(l, homes) && socket in homes && homes[socket] == key
    ensures var replaced := Leave(l, l.sessions - {key}, Replaced(socket));
      Sound(replaced, homes) && Extends(l, replaced)
  {
    LeaveKeepsSound(l, homes, l.sessions - {key}, Replaced(socket));
  }

  lemma ParkKeepsInv(l: Ledger, kept: Sessions, key: SessionKey, socket: nat, now: nat)
    requires Inv(l) && socket !in l.homes && MakesRoom(l.sessions, kept, key)
    ensures Inv(AfterPark(l, kept, key, socket, now)) && Extends(l, AfterPark(l, kept, key, socket, now))
  {
    var homes := l.homes[socket := key];
    var evicted := Leave(l, kept, Evicted(socket));
    var replaced := Leave(evicted, kept - {key}, Replaced(socket));
    hide OfDevice, Leave, Enter, MakesRoom, Sound;
    LeaveShape(l, kept, Evicted(socket));
    LeaveShape(evicted, kept - {key}, Replaced(socket));
    EvictionIsSound(l, kept, key, socket);
    ReplacementIsSound(evicted, homes, key, socket);
    RoomForOne(l.sessions, kept, key);
    EnterKeepsInv(replaced, key, socket, now);
  }

  lemma RoomForOne(before: Sessions, kept: Sessions, key: SessionKey)
    requires WithinCap(before) && MakesRoom(before, kept, key)
    ensures WithinCap(kept - {key})
    ensures |OfDevice(kept - {key}, key.device)| < MAX_SESSIONS_PER_DEVICE
  {
    FewerSessions(before, kept);
    FewerSessions(kept, kept - {key});
    if key in kept {
      OneFewer(kept, key);
    } else {
      assert kept - {key} == kept;
    }
  }

  lemma OneMore(sessions: Sessions, key: SessionKey, session: ParkedSession)
    requires WithinCap(sessions) && |OfDevice(sessions, key.device)| < MAX_SESSIONS_PER_DEVICE
    ensures WithinCap(sessions[key := session])
  {
    var more := sessions[key := session];
    forall d
      ensures |OfDevice(more, d)| <= MAX_SESSIONS_PER_DEVICE
    {
      if d == key.device {
        assert OfDevice(more, d) == OfDevice(sessions, d) + {key};
      } else {
        assert OfDevice(more, d) == OfDevice(sessions, d);
      }
    }
  }

  lemma EnterKeepsInv(l: Ledger, key: SessionKey, socket: nat, now: nat)
    requires Sound(l, l.homes[socket := key]) && WithinCap(l.sessions)
    requires key !in l.sessions && socket !in l.homes
    requires |OfDevice(l.sessions, key.device)| < MAX_SESSIONS_PER_DEVICE
    ensures Inv(Enter(l, key, socket, now)) && Extends(l, Enter(l, key, socket, now))
  {
    OneMore(l.sessions, key, ParkedSession(socket, now));
  }

  lemma TakeKeepsInv(l: Ledger, device: string, credential: string)
    requires Inv(l)
    ensures Inv(AfterTake(l, device, credential)) && Extends(l, AfterTake(l, device, credential))
  {
    match Match(l.sessions, device, credential)
    case None =>
    case Some(key) =>
      LeaveKeepsSound(l, l.homes, l.sessions - {key}, Taken(device, credential));
      FewerSessions(l.sessions, l.sessions - {key});
  }

  lemma StepKeepsInv(idleTimeout: nat, l: Ledger, step: Step, l': Ledger)
    requires Inv(l) && Next(idleTimeout, l, step, l')
    ensures Inv(l') && Extends(l, l')
  {
    match step
    case Park(key, socket, now, answering) =>
      var swept := AfterSweep(l, now, idleTimeout, answering);
      SweepKeepsInv(l, now, idleTimeout, answering);
      var kept :| MakesRoom(swept.sessions, kept, key) && l' == AfterPark(swept, kept, key, socket, now);
      ParkKeepsInv(swept, kept, key, socket, now);
    case Take(device, credential, now, answering) =>
      SweepKeepsInv(l, now, idleTimeout, answering);
      TakeKeepsInv(AfterSweep(l, now, idleTimeout, answering), device, credential);
    case Sweep(now, answering) =>
      SweepKeepsInv(l, now, idleTimeout, answering);
    case Discard(device) =>
      LeaveKeepsSound(l, l.homes, Without(l.sessions, device), Discarded(device));
      FewerSessions(l.sessions, Without(l.sessions, device));
  }

  /** A run: the ledger before the first step, and after each. */
  ghost predicate Run(idleTimeout: nat, steps: seq<Step>, states: seq<Ledger>) {
    && |states| == |steps| + 1
    && states[0] == EMPTY
    && forall i :: 0 <= i < |steps| ==> Next(idleTimeout, states[i], steps[i], states[i + 1])
  }

  /** In every run, after any number of steps, the pool is sound and within its cap, and from
      any earlier point to any later one nothing that left has come back or left again. */
  lemma {:induction false} EveryRunKeepsInv(idleTimeout: nat, steps: seq<Step>, states: seq<Ledger>, i: nat, j: nat)
    requires Run(idleTimeout, steps, states) && i <= j <= |steps|
    ensures Inv(states[j]) && Extends(states[i], states[j])
    decreases j
  {
    if j > 0 {
      EveryRunKeepsInv(idleTimeout, steps, states, if i < j then i else j - 1, j - 1);
      StepKeepsInv(idleTimeout, states[j - 1], steps[j - 1], states[j]);
    }
  }

  // ---- What a single departure says ----

  /** Why a session parked under `key` before a step, and gone after it, has left. */
  ghost predicate Explains(idleTimeout: nat, l: Ledger, step: Step, l': Ledger, key: SessionKey)
    requires key in l.sessions
  {
    var session := l.sessions[key];
    session.socket in l'.exits &&
    match l'.exits[session.socket]
    case Swept =>
      !step.Discard? && (step.now >= session.parkedAt + idleTimeout || session.socket !in step.answering)
    case Taken(device, credential) =>
      step.Take? && step.device == device && step.credential == credential
      && (key == SessionKey(device, Some(credential))
          || (key == SessionKey(device, None)
              && SessionKey(device, Some(credential)) !in Survivors(l, step, idleTimeout)))
    case Replaced(successor) => step.Park? && step.key == key && step.socket == successor
    case Evicted(newcomer) =>
      && step.Park? && step.key.device == key.device && step.socket == newcomer
      && step.key !in Survivors(l, step, idleTimeout)
      && |OfDevice(Survivors(l, step, idleTimeout), key.device)| >= 8
      && forall k :: k in l.sessions && k in l'.sessions && k.device == key.device && k != step.key
           ==> session.parkedAt <= l.sessions[k].parkedAt
    case Discarded(device) => step == Discard(device) && key.device == device
  }

  /** The sessions inside their window whose phone still answers. */
  function Survivors(l: Ledger, step: Step, idleTimeout: nat): Sessions
    requires !step.Discard?
  {
    map k | k in l.sessions && step.now < l.sessions[k].parkedAt + idleTimeout && l.sessions[k].socket in step.answering
      :: l.sessions[k]
  }

  lemma SurvivorsAreHealthy(l: Ledger, step: Step, idleTimeout: nat)
    requires !step.Discard?
    ensures Survivors(l, step, idleTimeout) == Healthy(l.sessions, step.now, idleTimeout, step.answering)
  {
  }

  /** Sockets that leave are marked with the reason; sockets that stay are not touched. */
  lemma LeaveMarks(l: Ledger, homes: map<nat, SessionKey>, after: Sessions, exit: Exit, key: SessionKey)
    requires Sound(l, homes) && key in l.sessions
    requires forall k :: k in after ==> k in l.sessions && after[k] == l.sessions[k]
    ensures var left := Leave(l, after, exit).exits;
      if key in after then l.sessions[key].socket !in left
      else l.sessions[key].socket in left && left[l.sessions[key].socket] == exit
  {
  }

  lemma SweepExplains(idleTimeout: nat, l: Ledger, now: nat, answering: set<nat>, key: SessionKey)
    requires Inv(l) && key in l.sessions
    ensures var l' := AfterSweep(l, now, idleTimeout, answering);
      if Stays(l.sessions[key], now, idleTimeout, answering)
      then key in l'.sessions && l'.sessions[key] == l.sessions[key]
      else key !in l'.sessions && l.sessions[key].socket in l'.exits && l'.exits[l.sessions[key].socket] == Swept
  {
    LeaveMarks(l, l.homes, Healthy(l.sessions, now, idleTimeout, answering), Swept, key);
  }

  lemma TakeExplains(idleTimeout: nat, l: Ledger, step: Step, l': Ledger, key: SessionKey)
    requires step.Take? && Inv(l) && Next(idleTimeout, l, step, l')
    requires key in l.sessions && key !in l'.sessions
    ensures Explains(idleTimeout, l, step, l', key)
  {
    hide Leave, Sound, WithinCap, Survivors;
    SweepExplains(idleTimeout, l, step.now, step.answering, key);
    SweepKeepsInv(l, step.now, idleTimeout, step.answering);
    var swept := AfterSweep(l, step.now, idleTimeout, step.answering);
    SurvivorsAreHealthy(l, step, idleTimeout);
    LeaveShape(l, Survivors(l, step, idleTimeout), Swept);
    TakeKeepsInv(swept, step.device, step.credential);
    if key in swept.sessions {
      var taken := Match(swept.sessions, step.device, step.credential).value;
      LeaveShape(swept, swept.sessions - {taken}, Taken(step.device, step.credential));
      LeaveMarks(swept, swept.homes, swept.sessions - {taken}, Taken(step.device, step.credential), key);
    }
  }

  lemma SoundWhileEntering(l: Ledger, socket: nat, key: SessionKey)
    requires Inv(l) && socket !in l.homes
    ensures Sound(l, l.homes[socket := key])
  {
  }

  lemma KeptIsHeld(before: Sessions, kept: Sessions, newKey: SessionKey)
    requires MakesRoom(before, kept, newKey)
    ensures forall k :: k in kept ==> k in before && kept[k] == before[k]
  {
  }

  lemma EvictionMarks(l: Ledger, kept: Sessions, newKey: SessionKey, socket: nat, key: SessionKey)
    requires Inv(l) && socket !in l.homes && MakesRoom(l.sessions, kept, newKey)
    requires key in l.sessions && key !in kept
    ensures var left := Leave(l, kept, Evicted(socket)).exits;
      l.sessions[key].socket in left && left[l.sessions[key].socket] == Evicted(socket)
  {
    hide Leave, Sound, Inv, MakesRoom;
    SoundWhileEntering(l, socket, newKey);
    KeptIsHeld(l.sessions, kept, newKey);
    LeaveMarks(l, l.homes[socket := newKey], kept, Evicted(socket), key);
  }

  lemma ParkMarks(l: Ledger, kept: Sessions, newKey: SessionKey, socket: nat, now: nat, key: SessionKey)
    requires Inv(l) && socket !in l.homes && MakesRoom(l.sessions, kept, newKey) && key in l.sessions
    ensures var l', s := AfterPark(l, kept, newKey, socket, now), l.sessions[key].socket;
      if key !in kept then s in l'.exits && l'.exits[s] == Evicted(socket)
      else kept[key] == l.sessions[key] && (key == newKey ==> s in l'.exits && l'.exits[s] == Replaced(socket))
  {
    hide Leave, Sound, Inv, MakesRoom;
    var evicted := Leave(l, kept, Evicted(socket));
    var homes := l.homes[socket := newKey];
    LeaveShape(l, kept, Evicted(socket));
    KeptIsHeld(l.sessions, kept, newKey);
    EvictionIsSound(l, kept, newKey, socket);
    ReplacementIsSound(evicted, homes, newKey, socket);
    if key !in kept {
      EvictionMarks(l, kept, newKey, socket, key);
    } else {
      LeaveMarks(evicted, homes, kept - {newKey}, Replaced(socket), key);
    }
  }

  lemma ParkExplains(idleTimeout: nat, l: Ledger, step: Step, l': Ledger, key: SessionKey)
    requires step.Park? && Inv(l) && Next(idleTimeout, l, step, l')
    requires key in l.sessions && (key !in l'.sessions || l'.sessions[key] != l.sessions[key])
    ensures Explains(idleTimeout, l, step, l', key)
  {
    hide Leave, Healthy, OfDevice, Inv, Extends, Survivors;
    var swept := AfterSweep(l, step.now, idleTimeout, step.answering);
    var kept :|
      MakesRoom(swept.sessions, kept, step.key) && l' == AfterPark(swept, kept, step.key, step.socket, step.now);
    SurvivorsAreHealthy(l, step, idleTimeout);
    LeaveShape(l, Survivors(l, step, idleTimeout), Swept);
    SweepExplains(idleTimeout, l, step.now, step.answering, key);
    SweepKeepsInv(l, step.now, idleTimeout, step.answering);
    HealthyIsHeld(l.sessions, step.now, idleTimeout, step.answering);
    ParkShape(swept, kept, step.key, step.socket, step.now);
    if key in swept.sessions {
      ParkMarks(swept, kept, step.key, step.socket, step.now, key);
      if key !in kept {
        EvictsOnlyWhenFull(swept.sessions, kept, step.key.device, key);
      }
    } else {
      ParkKeepsInv(swept, kept, step.key, step.socket, step.now);
      ExitStands(swept, l', l.sessions[key].socket);
    }
  }

  lemma HealthyIsHeld(sessions: Sessions, now: nat, idleTimeout: nat, answering: set<nat>)
    ensures var healthy := Healthy(sessions, now, idleTimeout, answering);
      forall k :: k in healthy ==> k in sessions && healthy[k] == sessions[k]
  {
  }

  lemma EvictsOnlyWhenFull(before: Sessions, after: Sessions, device: string, key: SessionKey)
    requires Capped(before, after, device) && key in before && key !in after
    ensures key.device == device && |OfDevice(before, device)| >= MAX_SESSIONS_PER_DEVICE
  {
    assert OfDevice(after, device) <= OfDevice(before, device) - {key};
    SubsetSize(OfDevice(after, device), OfDevice(before, device) - {key});
  }

  lemma ParkShape(l: Ledger, kept: Sessions, key: SessionKey, socket: nat, now: nat)
    ensures AfterPark(l, kept, key, socket, now).sessions == kept[key := ParkedSession(socket, now)]
  {
  }

  lemma ExitStands(l: Ledger, l': Ledger, socket: nat)
    requires Extends(l, l') && socket in l.exits
    ensures socket in l'.exits && l'.exits[socket] == l.exits[socket]
  {
  }

  /** A session leaves for exactly one stated reason: swept only when idle too long or hung up,
      taken only by the step that asked for its device and credential (or for its device, when it
      named none and no session named the credential), replaced only by its own key's next
      session, evicted only by a newcomer of its own device at the cap and only if no session of
      that device left standing is older. */
  lemma {:induction false} DeparturesAreExplained(idleTimeout: nat, l: Ledger, step: Step, l': Ledger, key: SessionKey)
    requires Inv(l) && Next(idleTimeout, l, step, l')
    requires key in l.sessions && (key !in l'.sessions || l'.sessions[key] != l.sessions[key])
    ensures Explains(idleTimeout, l, step, l', key)
  {
    match step
    case Park(_, _, _, _) => ParkExplains(idleTimeout, l, step, l', key);
    case Take(_, _, _, _) => TakeExplains(idleTimeout, l, step, l', key);
    case Sweep(now, answering) => SweepExplains(idleTimeout, l, now, answering, key);
    case Discard(device) => LeaveMarks(l, l.homes, l'.sessions, Discarded(device), key);
  }

  /** Whatever leaves in a step that sweeps is marked as swept exactly when it was past its window or
      its phone had hung up; so no request is answered with such a session, and none is dropped as
      stale that is not. */
  lemma {:induction false} SweptIffStale(idleTimeout: nat, l: Ledger, step: Step, l': Ledger, key: SessionKey)
    requires Inv(l) && Next(idleTimeout, l, step, l') && !step.Discard?
    requires key in l.sessions && (key !in l'.sessions || l'.sessions[key] != l.sessions[key])
    ensures var session := l.sessions[key];
      && session.socket in l'.exits
      && (l'.exits[session.socket] == Swept
          <==> step.now >= session.parkedAt + idleTimeout || session.socket !in step.answering)
  {
    hide Healthy, Leave, Survivors, MakesRoom, OfDevice, Inv, AfterPark, AfterTake;
    var session, swept := l.sessions[key], AfterSweep(l, step.now, idleTimeout, step.answering);
    DeparturesAreExplained(idleTimeout, l, step, l', key);
    SweepExplains(idleTimeout, l, step.now, step.answering, key);
    SweepKeepsInv(l, step.now, idleTimeout, step.answering);
    AfterTheSweep(idleTimeout, l, step, l');
    if !Stays(session, step.now, idleTimeout, step.answering) {
      ExitStands(swept, l', session.socket);
    }
  }

  lemma AfterTheSweep(idleTimeout: nat, l: Ledger, step: Step, l': Ledger)
    requires Inv(l) && Next(idleTimeout, l, step, l') && !step.Discard?
    ensures Extends(AfterSweep(l, step.now, idleTimeout, step.answering), l')
  {
    hide Healthy, Leave, MakesRoom, OfDevice, Inv;
    var swept := AfterSweep(l, step.now, idleTimeout, step.answering);
    SweepKeepsInv(l, step.now, idleTimeout, step.answering);
    LeaveShape(l, Healthy(l.sessions, step.now, idleTimeout, step.answering), Swept);
    match step
    case Park(key, socket, now, answering) =>
      var kept :| MakesRoom(swept.sessions, kept, key) && l' == AfterPark(swept, kept, key, socket, now);
      ParkKeepsInv(swept, kept, key, socket, now);
    case Take(device, credential, _, _) => TakeKeepsInv(swept, device, credential);
    case Sweep(_, _) =>
  }
}
