/** The tray's connection to the agent (agent-connection.js): one line per reply, many calls in
    flight. Text is already decoded; what a line says is a parameter, standing for trimming and
    JSON. Listeners are taken not to call back while a chunk is being consumed. */
module AgentConnection {
  import opened Common
  import opened Lines

  const MAX_UNTERMINATED_CHARS := 1_048_576

  /** What a line reads as. An id that is not a natural number is None: no call has it. `null` is
      valid JSON that has no `id` to ask for, and asking throws. */
  datatype Line = Blank | Malformed | Null | Event | Reply(id: Option<nat>, ok: bool)

  type Reader = string -> Line

  datatype Outcome = Answered(line: string, ok: bool) | TimedOut | Discarded(reason: string)

  datatype Output =
    | Pushed(line: string)
    | Settled(id: nat, outcome: Outcome)
    | Status(connected: bool, reachable: bool)
    | Written(id: nat)
    | Refused

  datatype State = State(
    buffer: string,
    nextId: nat,
    pending: seq<nat>,
    connected: bool,
    socket: bool,
    retrying: bool,
    reachedAgent: bool,
    lastError: Option<string>)

  const INITIAL := State("", 1, [], false, false, false, false, None)

  // ---- The steps on values ----

  /** The ids that stay when one is deleted, in the order they were added. */
  function Without(pending: seq<nat>, id: nat): seq<nat> {
    if pending == [] then []
    else (if pending[0] == id then [] else [pending[0]]) + Without(pending[1..], id)
  }

  function RejectAll(pending: seq<nat>, reason: string): seq<Output> {
    seq(|pending|, i requires 0 <= i < |pending| => Settled(pending[i], Discarded(reason)))
  }

  function AfterDiscard(s: State, reason: string): (State, seq<Output>) {
    (s.(connected := false, socket := false, pending := [], buffer := ""), RejectAll(s.pending, reason))
  }

  function AfterFail(s: State, reason: string): (State, seq<Output>) {
    var (s', out) := AfterDiscard(s.(lastError := Some(reason)), reason);
    (s'.(retrying := true), out + [Status(false, s'.reachedAgent)])
  }

  function AfterStart(s: State, problem: Option<string>): (State, seq<Output>) {
    var s' := s.(retrying := false, reachedAgent := false);
    match problem
    case Some(reason) => AfterFail(s', reason)
    case None => (s'.(socket := true), [])
  }

  function AfterCall(s: State): (State, seq<Output>) {
    if !s.socket || !s.connected then (s, [Refused])
    else (s.(nextId := s.nextId + 1, pending := s.pending + [s.nextId]), [Written(s.nextId)])
  }

  function AfterConnect(s: State): (State, seq<Output>) {
    var s' := s.(connected := true, reachedAgent := true, lastError := None);
    var (s'', out) := AfterCall(s');
    (s'', [Status(true, true)] + out)
  }

  function AfterTimeOut(s: State, id: nat): (State, seq<Output>) {
    if id in s.pending then (s.(pending := Without(s.pending, id)), [Settled(id, TimedOut)]) else (s, [])
  }

  function AfterStop(s: State): (State, seq<Output>) {
    AfterDiscard(s.(retrying := false), "agent connection stopped")
  }

  /** One complete line, unless it reads as null. */
  function HandleLine(s: State, line: string, read: Reader): (State, seq<Output>) {
    match read(line)
    case Event => (s, [Pushed(line)])
    case Reply(Some(id), ok) =>
      if id in s.pending then (s.(pending := Without(s.pending, id)), [Settled(id, Answered(line, ok))]) else (s, [])
    case _ => (s, [])
  }

  /** What the loop over the buffer did, and whether a line made it throw. */
  datatype Drained = Drained(state: State, out: seq<Output>, threw: bool)

  function Then(out: seq<Output>, rest: Drained): Drained {
    rest.(out := out + rest.out)
  }

  function Drain(s: State, read: Reader): Drained
    decreases |s.buffer|
  {
    var newline := IndexOf(s.buffer, '\n');
    if newline == |s.buffer| then Drained(s, [], false)
    else
      var line := s.buffer[..newline];
      var cut := s.(buffer := s.buffer[newline + 1..]);
      if read(line).Null? then Drained(cut, [], true)
      else
        var (s', first) := HandleLine(cut, line, read);
        Then(first, Drain(s', read))
  }

  /** One chunk of text. When a line throws, neither the rest of the buffer nor its size is
      looked at. */
  function AfterConsume(s: State, text: string, read: Reader): (State, seq<Output>) {
    Checked(Drain(s.(buffer := s.buffer + text), read))
  }

  function Checked(d: Drained): (State, seq<Output>) {
    if d.threw || |d.state.buffer| <= MAX_UNTERMINATED_CHARS then (d.state, d.out)
    else
      var (s', more) := AfterFail(d.state, "agent sent an oversized line");
      (s', d.out + more)
  }

  // ---- The connection itself ----

  class Connection {
    var buffer: string
    var nextId: nat
    var pending: seq<nat>
    var connected: bool
    var socket: bool
    var retryTimer: bool
    var reachedAgent: bool
    var lastError: Option<string>

    function Now(): State
      reads this
    {
      State(buffer, nextId, pending, connected, socket, retryTimer, reachedAgent, lastError)
    }

    constructor ()
      ensures Now() == INITIAL
    {
      buffer, nextId, pending, connected, socket := "", 1, [], false, false;
      retryTimer, reachedAgent, lastError := false, false, None;
    }

    method Discard(reason: string) returns (out: seq<Output>)
      modifies this
      ensures (Now(), out) == AfterDiscard(old(Now()), reason)
    {
      connected, socket := false, false;
      out := [];
      for i := 0 to |pending|
        invariant Now() == old(Now()).(connected := false, socket := false)
        invariant out == RejectAll(pending[..i], reason)
      {
        assert pending[..i + 1] == pending[..i] + [pending[i]];
        out := out + [Settled(pending[i], Discarded(reason))];
      }
      assert pending[..|pending|] == pending;
      pending, buffer := [], "";
    }

    method Fail(reason: string) returns (out: seq<Output>)
      modifies this
      ensures (Now(), out) == AfterFail(old(Now()), reason)
    {
      lastError := Some(reason);
      out := Discard(reason);
      out := out + [Status(false, reachedAgent)];
      retryTimer := true;
    }

    method Start(problem: Option<string>) returns (out: seq<Output>)
      modifies this
      ensures (Now(), out) == AfterStart(old(Now()), problem)
    {
      retryTimer, reachedAgent, out := false, false, [];
      if problem.Some? {
        out := Fail(problem.value);
        return;
      }
      socket := true;
    }

    method Call() returns (out: seq<Output>)
      modifies this
      ensures (Now(), out) == AfterCall(old(Now()))
    {
      if !socket || !connected {
        return [Refused];
      }
      var id := nextId;
      nextId := nextId + 1;
      pending := pending + [id];
      out := [Written(id)];
    }

    method Connect() returns (out: seq<Output>)
      modifies this
      ensures (Now(), out) == AfterConnect(old(Now()))
    {
      connected, reachedAgent, lastError := true, true, None;
      out := Call();
      out := [Status(true, true)] + out;
    }

    method TimeOut(id: nat) returns (out: seq<Output>)
      modifies this
      ensures (Now(), out) == AfterTimeOut(old(Now()), id)
    {
      out := [];
      if id in pending {
        pending := Without(pending, id);
        out := [Settled(id, TimedOut)];
      }
    }

    method Stop() returns (out: seq<Output>)
      modifies this
      ensures (Now(), out) == AfterStop(old(Now()))
    {
      retryTimer := false;
      out := Discard("agent connection stopped");
    }

    /** What one pass of the loop does with a line that does not throw. */
    method Take(line: string, read: Reader) returns (out: seq<Output>)
      modifies this
      ensures (Now(), out) == HandleLine(old(Now()), line, read)
    {
      out := [];
      match read(line) {
        case Event => out := [Pushed(line)];
        case Reply(Some(id), ok) =>
          if id in pending {
            pending := Without(pending, id);
            out := [Settled(id, Answered(line, ok))];
          }
        case _ =>
      }
    }

    method Consume(chunk: string, read: Reader) returns (out: seq<Output>)
      modifies this
      ensures (Now(), out) == AfterConsume(old(Now()), chunk, read)
    {
      hide Drain, IndexOf, Then, HandleLine, Without;
      buffer := buffer + chunk;
      out := [];
      ghost var whole := Drain(Now(), read);
      ThenNothing(whole);
      var newline := IndexOf(buffer, '\n');
      while newline < |buffer|
        invariant newline == IndexOf(buffer, '\n')
        invariant whole == Then(out, Drain(Now(), read))
        decreases |buffer|
      {
        DrainStep(Now(), read);
        var line := buffer[..newline];
        buffer := buffer[newline + 1..];
        if read(line).Null? {
          ThenDone(out, Now(), true);
          return;
        }
        SameBuffer(Now(), line, read);
        var first := Take(line, read);
        newline := IndexOf(buffer, '\n');
        ThenTwice(out, first, Drain(Now(), read));
        out := out + first;
      }
      DrainStep(Now(), read);
      ThenDone(out, Now(), false);
      if |buffer| > MAX_UNTERMINATED_CHARS {
        var more := Fail("agent sent an oversized line");
        out := out + more;
      }
    }
  }

  lemma SameBuffer(s: State, line: string, read: Reader)
    ensures HandleLine(s, line, read).0.buffer == s.buffer
  {
  }

  lemma ThenNothing(rest: Drained)
    ensures Then([], rest) == rest
  {
    assert [] + rest.out == rest.out;
  }

  lemma ThenDone(out: seq<Output>, s: State, threw: bool)
    ensures Then(out, Drained(s, [], threw)) == Drained(s, out, threw)
  {
    assert out + [] == out;
  }

  lemma ThenTwice(a: seq<Output>, b: seq<Output>, rest: Drained)
    ensures Then(a, Then(b, rest)) == Then(a + b, rest)
  {
    assert a + (b + rest.out) == a + b + rest.out;
  }

  lemma DrainStep(s: State, read: Reader)
    ensures Drain(s, read) ==
      var newline := IndexOf(s.buffer, '\n');
      if newline == |s.buffer| then Drained(s, [], false)
      else
        var line := s.buffer[..newline];
        var cut := s.(buffer := s.buffer[newline + 1..]);
        if read(line).Null? then Drained(cut, [], true)
        else
          var (s', first) := HandleLine(cut, line, read);
          Then(first, Drain(s', read))
  {
    hide HandleLine, IndexOf, Then;
  }
}
