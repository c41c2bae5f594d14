/** What holds in every run of the tray's connection: each call is settled exactly once, and only by
    its own line, its own timer or the loss of the connection. */
module AgentRuns {
  import opened Common
  import opened Lines
  import opened AgentConnection

  datatype Step =
    | Started(problem: Option<string>)
    | Connected
    | Chunk(text: string)
    | Called
    | TimerFired(id: nat)
    | Lost(reason: string)
    | Stopped

  function Next(s: State, step: Step, read: Reader): (State, seq<Output>) {
    match step
    case Started(problem) => AfterStart(s, problem)
    case Connected => AfterConnect(s)
    case Chunk(text) => AfterConsume(s, text, read)
    case Called => AfterCall(s)
    case TimerFired(id) => AfterTimeOut(s, id)
    case Lost(reason) => AfterFail(s, reason)
    case Stopped => AfterStop(s)
  }

  /** The state after a run, and everything it put out. */
  function Run(s: State, steps: seq<Step>, read: Reader): (State, seq<Output>) {
    if steps == [] then (s, [])
    else
      var n := |steps| - 1;
      var (s', out) := Run(s, steps[..n], read);
      var (s'', more) := Next(s', steps[n], read);
      (s'', out + more)
  }

  // ---- Every call is settled once ----

  /** How often a call has been settled. */
  function Settlements(out: seq<Output>, id: nat): nat {
    if out == [] then 0
    else Settlements(out[..|out| - 1], id) + One(out[|out| - 1], id)
  }

  function One(o: Output, id: nat): nat {
    if o.Settled? && o.id == id then 1 else 0
  }

  function Waiting(pending: seq<nat>, id: nat): nat {
    multiset(pending)[id]
  }

  /** Each id handed out so far is waiting or settled, and that once; no other id is either. */
  ghost predicate Ledger(s: State, out: seq<Output>) {
    && s.nextId >= 1
    && forall id: nat :: Waiting(s.pending, id) + Settlements(out, id) == if 1 <= id < s.nextId then 1 else 0
  }

  lemma {:induction false} SettlementsAppend(a: seq<Output>, b: seq<Output>, id: nat)
    ensures Settlements(a + b, id) == Settlements(a, id) + Settlements(b, id)
  {
    hide One;
    if b == [] {
      assert a + b == a;
    } else {
      assert (a + b)[..|a + b| - 1] == a + b[..|b| - 1];
      SettlementsAppend(a, b[..|b| - 1], id);
    }
  }

  lemma OneOutput(o: Output, id: nat)
    ensures Settlements([o], id) == One(o, id)
  {
    assert [o][..0] == [];
  }

  lemma {:induction false} WithoutOne(pending: seq<nat>, gone: nat, id: nat)
    ensures Waiting(Without(pending, gone), id) == if id == gone then 0 else Waiting(pending, id)
  {
    if pending != [] {
      WithoutOne(pending[1..], gone, id);
      assert pending == [pending[0]] + pending[1..];
      var kept := if pending[0] == gone then [] else [pending[0]];
      assert multiset(kept + Without(pending[1..], gone)) == multiset(kept) + multiset(Without(pending[1..], gone));
    }
  }

  lemma {:induction false} AllRejected(pending: seq<nat>, reason: string, id: nat)
    ensures Settlements(RejectAll(pending, reason), id) == Waiting(pending, id)
  {
    if pending != [] {
      var n := |pending| - 1;
      AllRejected(pending[..n], reason, id);
      assert RejectAll(pending, reason)[..n] == RejectAll(pending[..n], reason);
      assert pending == pending[..n] + [pending[n]];
    }
  }

  /** What a step takes from the waiting calls, it settles; what it adds, it has just issued. */
  ghost predicate Conserves(s: State, s': State, out: seq<Output>) {
    && s.nextId <= s'.nextId
    && forall id: nat :: Waiting(s'.pending, id) + Settlements(out, id)
        == Waiting(s.pending, id) + if s.nextId <= id < s'.nextId then 1 else 0
  }

  lemma ConservesChain(s: State, t: State, u: State, a: seq<Output>, b: seq<Output>)
    requires Conserves(s, t, a) && Conserves(t, u, b)
    ensures Conserves(s, u, a + b)
  {
    hide Waiting, Settlements;
    forall id: nat ensures Waiting(u.pending, id) + Settlements(a + b, id)
      == Waiting(s.pending, id) + if s.nextId <= id < u.nextId then 1 else 0
    {
      SettlementsAppend(a, b, id);
    }
  }

  lemma NothingSettled(s: State, s': State, out: seq<Output>)
    requires s'.pending == s.pending && s'.nextId == s.nextId
    requires forall o :: o in out ==> !o.Settled?
    ensures Conserves(s, s', out)
  {
    hide Waiting;
    forall id: nat ensures Settlements(out, id) == 0 {
      NoneSettled(out, id);
    }
  }

  lemma {:induction false} NoneSettled(out: seq<Output>, id: nat)
    requires forall o :: o in out ==> !o.Settled?
    ensures Settlements(out, id) == 0
  {
    if out != [] {
      NoneSettled(out[..|out| - 1], id);
    }
  }

  lemma DiscardConserves(s: State, reason: string)
    ensures Conserves(s, AfterDiscard(s, reason).0, AfterDiscard(s, reason).1)
  {
    hide Settlements;
    forall id: nat ensures Waiting([], id) + Settlements(RejectAll(s.pending, reason), id) == Waiting(s.pending, id) {
      AllRejected(s.pending, reason, id);
    }
  }

  lemma FailConserves(s: State, reason: string)
    ensures Conserves(s, AfterFail(s, reason).0, AfterFail(s, reason).1)
  {
    hide Conserves;
    var t := s.(lastError := Some(reason));
    var (u, out) := AfterDiscard(t, reason);
    NothingSettled(s, t, []);
    DiscardConserves(t, reason);
    ConservesChain(s, t, u, [], out);
    assert [] + out == out;
    var status := [Status(false, u.reachedAgent)];
    NothingSettled(u, u.(retrying := true), status);
    ConservesChain(s, u, u.(retrying := true), out, status);
  }

  lemma CallConserves(s: State)
    ensures Conserves(s, AfterCall(s).0, AfterCall(s).1)
  {
    var (t, out) := AfterCall(s);
    if out == [Refused] {
      NothingSettled(s, t, out);
    } else {
      hide Settlements;
      forall id: nat ensures Waiting(t.pending, id) == Waiting(s.pending, id) + (if id == s.nextId then 1 else 0)
        && Settlements(out, id) == 0
      {
        NoneSettled(out, id);
        assert multiset(s.pending + [s.nextId]) == multiset(s.pending) + multiset{s.nextId};
      }
    }
  }

  ghost predicate AtMostOnce(pending: seq<nat>) {
    forall id: nat :: Waiting(pending, id) <= 1
  }

  lemma SettleConserves(s: State, id: nat, outcome: Outcome)
    requires AtMostOnce(s.pending) && id in s.pending
    ensures Conserves(s, s.(pending := Without(s.pending, id)), [Settled(id, outcome)])
    ensures AtMostOnce(Without(s.pending, id))
  {
    hide Settlements, Without;
    assert Waiting(s.pending, id) == 1;
    forall other: nat ensures Waiting(Without(s.pending, id), other) + Settlements([Settled(id, outcome)], other)
      == Waiting(s.pending, other)
    {
      WithoutOne(s.pending, id, other);
      OneOutput(Settled(id, outcome), other);
    }
  }

  lemma LineConserves(s: State, line: string, read: Reader)
    requires AtMostOnce(s.pending)
    ensures var (t, out) := HandleLine(s, line, read); Conserves(s, t, out) && AtMostOnce(t.pending)
  {
    hide Conserves, AtMostOnce;
    var (t, out) := HandleLine(s, line, read);
    match read(line) {
      case Reply(Some(id), ok) =>
        if id in s.pending {
          SettleConserves(s, id, Answered(line, ok));
        } else {
          NothingSettled(s, t, out);
        }
      case _ => NothingSettled(s, t, out);
    }
  }

  lemma {:induction false} DrainConserves(s: State, read: Reader)
    requires AtMostOnce(s.pending)
    ensures var d := Drain(s, read); Conserves(s, d.state, d.out)
    decreases |s.buffer|
  {
    hide Drain, HandleLine, Conserves, AtMostOnce, IndexOf;
    DrainStep(s, read);
    var newline := IndexOf(s.buffer, '\n');
    if newline == |s.buffer| {
      NothingSettled(s, s, []);
    } else {
      var line, cut := s.buffer[..newline], s.(buffer := s.buffer[newline + 1..]);
      NothingSettled(s, cut, []);
      if !read(line).Null? {
        var (t, first) := HandleLine(cut, line, read);
        SameBuffer(cut, line, read);
        LineConserves(cut, line, read);
        DrainConserves(t, read);
        ConservesChain(s, cut, t, [], first);
        assert [] + first == first;
        ConservesChain(s, t, Drain(t, read).state, first, Drain(t, read).out);
      }
    }
  }

  lemma ConsumeConserves(s: State, text: string, read: Reader)
    requires AtMostOnce(s.pending)
    ensures Conserves(s, AfterConsume(s, text, read).0, AfterConsume(s, text, read).1)
  {
    hide Drain, Conserves, AfterFail, AtMostOnce;
    var t := s.(buffer := s.buffer + text);
    var d := Drain(t, read);
    NothingSettled(s, t, []);
    DrainConserves(t, read);
    ConservesChain(s, t, d.state, [], d.out);
    assert [] + d.out == d.out;
    FailConserves(d.state, "agent sent an oversized line");
    var (u, more) := AfterFail(d.state, "agent sent an oversized line");
    ConservesChain(s, d.state, u, d.out, more);
  }

  lemma StepConserves(s: State, step: Step, read: Reader)
    requires AtMostOnce(s.pending)
    ensures Conserves(s, Next(s, step, read).0, Next(s, step, read).1)
  {
    hide Conserves, AfterConsume, AfterFail, AfterCall, AfterDiscard, AtMostOnce;
    match step {
      case Started(problem) =>
        var t := s.(retrying := false, reachedAgent := false);
        NothingSettled(s, t, []);
        if problem.Some? {
          FailConserves(t, problem.value);
          var (u, out) := AfterFail(t, problem.value);
          ConservesChain(s, t, u, [], out);
          assert [] + out == out;
        } else {
          NothingSettled(s, t.(socket := true), []);
        }
      case Connected =>
        var t := s.(connected := true, reachedAgent := true, lastError := None);
        NothingSettled(s, t, [Status(true, true)]);
        CallConserves(t);
        var (u, out) := AfterCall(t);
        ConservesChain(s, t, u, [Status(true, true)], out);
      case Chunk(text) => ConsumeConserves(s, text, read);
      case Called => CallConserves(s);
      case TimerFired(id) =>
        if id in s.pending {
          SettleConserves(s, id, TimedOut);
        } else {
          NothingSettled(s, s, []);
        }
      case Lost(reason) => FailConserves(s, reason);
      case Stopped =>
        var t := s.(retrying := false);
        NothingSettled(s, t, []);
        DiscardConserves(t, "agent connection stopped");
        var (u, out) := AfterDiscard(t, "agent connection stopped");
        ConservesChain(s, t, u, [], out);
        assert [] + out == out;
    }
  }

  lemma LedgerGrows(s: State, s': State, out: seq<Output>, more: seq<Output>)
    requires Ledger(s, out) && Conserves(s, s', more)
    ensures Ledger(s', out + more)
  {
    hide Waiting, Settlements;
    forall id: nat
      ensures Waiting(s'.pending, id) + Settlements(out + more, id) == if 1 <= id < s'.nextId then 1 else 0
    {
      SettlementsAppend(out, more, id);
    }
  }

  lemma LedgerIsOnce(s: State, out: seq<Output>)
    requires Ledger(s, out)
    ensures AtMostOnce(s.pending)
  {
    hide Waiting, Settlements;
  }

  lemma EmptyLedger()
    ensures Ledger(INITIAL, [])
  {
  }

  /** In every run, across any number of connections: each call that was given an id is either
      waiting or settled, never both, and is settled at most once. */
  lemma {:induction false} EveryCallSettlesOnce(steps: seq<Step>, read: Reader)
    ensures var (s, out) := Run(INITIAL, steps, read); Ledger(s, out)
  {
    hide Next, Ledger;
    if steps == [] {
      EmptyLedger();
    } else {
      var n := |steps| - 1;
      EveryCallSettlesOnce(steps[..n], read);
      var (s, out) := Run(INITIAL, steps[..n], read);
      LedgerIsOnce(s, out);
      StepConserves(s, steps[n], read);
      var (s', more) := Next(s, steps[n], read);
      LedgerGrows(s, s', out, more);
    }
  }

  // ---- By what a call is settled ----

  /** An answer comes from a line that carries the call's own id. */
  ghost predicate OwnLine(o: Output, read: Reader) {
    o.Settled? && o.outcome.Answered? ==> read(o.outcome.line) == Reply(Some(o.id), o.outcome.ok)
  }

  /** What may settle a call in a step. */
  ghost predicate Fitting(o: Output, step: Step, read: Reader) {
    o.Settled? ==>
      match o.outcome
      case Answered(line, ok) => step.Chunk? && read(line) == Reply(Some(o.id), ok)
      case TimedOut => step == TimerFired(o.id)
      case Discarded(reason) =>
        match step
        case Lost(cause) => reason == cause
        case Stopped => reason == "agent connection stopped"
        case Started(problem) => problem == Some(reason)
        case Chunk(_) => reason == "agent sent an oversized line"
        case _ => false
  }

  lemma {:induction false} DrainAnswersOwn(s: State, read: Reader)
    ensures forall o :: o in Drain(s, read).out ==> OwnLine(o, read) && (o.Settled? ==> o.outcome.Answered?)
    decreases |s.buffer|
  {
    hide Drain, IndexOf, Without;
    DrainStep(s, read);
    var newline := IndexOf(s.buffer, '\n');
    if newline < |s.buffer| {
      var line, cut := s.buffer[..newline], s.(buffer := s.buffer[newline + 1..]);
      if !read(line).Null? {
        SameBuffer(cut, line, read);
        DrainAnswersOwn(HandleLine(cut, line, read).0, read);
      }
    }
  }

  lemma FailDiscards(s: State, reason: string)
    ensures forall o :: o in AfterFail(s, reason).1 ==> !o.Settled? || o.outcome == Discarded(reason)
    ensures AfterFail(s, reason).0.pending == []
  {
  }

  /** A call is answered only by a line with its own id, times out only by its own timer, and is
      discarded only when the connection is lost, stopped, restarted or cut off; nothing waits
      across a loss or a stop. */
  lemma SettledForCause(s: State, step: Step, read: Reader)
    ensures forall o :: o in Next(s, step, read).1 ==> Fitting(o, step, read)
    ensures step.Lost? || step.Stopped? ==> Next(s, step, read).0.pending == []
  {
    hide Drain, AfterFail, Without;
    match step {
      case Chunk(text) =>
        DrainAnswersOwn(s.(buffer := s.buffer + text), read);
        FailDiscards(Drain(s.(buffer := s.buffer + text), read).state, "agent sent an oversized line");
      case Started(problem) =>
        if problem.Some? {
          FailDiscards(s.(retrying := false, reachedAgent := false), problem.value);
        }
      case Lost(reason) => FailDiscards(s, reason);
      case _ =>
    }
  }
}
