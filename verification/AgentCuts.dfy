/** How the text is cut into chunks, and when that shows. */
module AgentCuts {
  import opened Common
  import opened Lines
  import opened AgentConnection

  // ---- How the text is cut does not matter ----

  lemma IndexInFront(a: string, b: string)
    requires IndexOf(a, '\n') < |a|
    ensures IndexOf(a + b, '\n') == IndexOf(a, '\n')
  {
    var i := IndexOf(a, '\n');
    assert (a + b)[..i] == a[..i] && (a + b)[i] == '\n';
    IndexOfUnique(a + b, '\n', i);
  }

  /** Draining more text goes on from the rest, unless a line threw. */
  lemma {:induction false} DrainAppend(s: State, more: string, read: Reader)
    requires !Drain(s, read).threw
    ensures var d := Drain(s, read);
      Drain(s.(buffer := s.buffer + more), read) == Then(d.out, Drain(d.state.(buffer := d.state.buffer + more), read))
    decreases |s.buffer|
  {
    hide Drain, HandleLine, IndexOf, Then;
    DrainStep(s, read);
    var newline := IndexOf(s.buffer, '\n');
    var longer := s.(buffer := s.buffer + more);
    if newline == |s.buffer| {
      ThenNothing(Drain(longer, read));
    } else {
      var line, cut := s.buffer[..newline], s.(buffer := s.buffer[newline + 1..]);
      IndexInFront(s.buffer, more);
      assert longer.buffer[..newline] == line && longer.buffer[newline + 1..] == cut.buffer + more;
      DrainStep(longer, read);
      var t := HandleLine(cut, line, read).0;
      var first := HandleLine(cut, line, read).1;
      SameBuffer(cut, line, read);
      ThenKeeps(first, Drain(t, read));
      DrainAppend(t, more, read);
      BufferAside(cut, cut.buffer + more, line, read);
      var d := Drain(t, read);
      ThenTwice(first, d.out, Drain(d.state.(buffer := d.state.buffer + more), read));
    }
  }

  lemma ThenKeeps(out: seq<Output>, d: Drained)
    ensures Then(out, d).threw == d.threw && Then(out, d).state == d.state && Then(out, d).out == out + d.out
  {
  }

  /** Handling a line does not look at the buffer. */
  lemma BufferAside(s: State, buffer: string, line: string, read: Reader)
    ensures HandleLine(s.(buffer := buffer), line, read)
      == (HandleLine(s, line, read).0.(buffer := buffer), HandleLine(s, line, read).1)
  {
  }

  /** The place of the first line that reads as null, or the number of lines when none does. */
  function FirstNull(lines: seq<string>, read: Reader): (i: nat)
    ensures i <= |lines| && forall j :: 0 <= j < i ==> !read(lines[j]).Null?
    ensures i < |lines| ==> read(lines[i]).Null?
  {
    if lines == [] || read(lines[0]).Null? then 0 else 1 + FirstNull(lines[1..], read)
  }

  lemma FirstNullStep(lines: seq<string>, read: Reader)
    requires lines != []
    ensures FirstNull(lines, read) == if read(lines[0]).Null? then 0 else 1 + FirstNull(lines[1..], read)
  {
  }

  /** Handed over: the complete lines up to the first that reads as null, which makes the loop throw.
      Left: what comes after. */
  ghost predicate DrainedTo(cut: Cut<char>, d: Drained, read: Reader) {
    var i := FirstNull(cut.lines, read);
    && (d.threw <==> i < |cut.lines|)
    && CutLines(d.state.buffer, '\n') == Cut(if d.threw then cut.lines[i + 1..] else [], cut.rest)
    && (!d.threw ==> d.state.buffer == cut.rest)
  }

  lemma NoneDrained(buffer: string, d: Drained, read: Reader)
    requires CutLines(buffer, '\n') == Cut([], buffer) && !d.threw && d.state.buffer == buffer
    ensures DrainedTo(Cut([], buffer), d, read)
  {
  }

  lemma NullDrained(line: string, more: Cut<char>, d: Drained, read: Reader)
    requires read(line).Null? && d.threw && CutLines(d.state.buffer, '\n') == more
    ensures DrainedTo(Cut([line] + more.lines, more.rest), d, read)
  {
    hide CutLines;
  }

  lemma LineDrained(line: string, more: Cut<char>, d: Drained, e: Drained, read: Reader)
    requires !read(line).Null? && DrainedTo(more, d, read)
    requires e.threw == d.threw && e.state == d.state
    ensures DrainedTo(Cut([line] + more.lines, more.rest), e, read)
  {
    hide CutLines;
    var lines := [line] + more.lines;
    assert lines[1..] == more.lines;
    assert d.threw ==> lines[FirstNull(lines, read) + 1..] == more.lines[FirstNull(more.lines, read) + 1..];
  }

  /** The loop throws exactly when some complete line reads as null, and stops at the first. */
  lemma {:induction false} DrainGoesToNull(s: State, read: Reader)
    ensures DrainedTo(CutLines(s.buffer, '\n'), Drain(s, read), read)
    decreases |s.buffer|
  {
    hide Drain, IndexOf, HandleLine, Then, CutLines, FirstNull, DrainedTo;
    DrainStep(s, read);
    var newline := IndexOf(s.buffer, '\n');
    if newline == |s.buffer| {
      CutEmpty(s.buffer, '\n');
      NoneDrained(s.buffer, Drain(s, read), read);
    } else {
      var line, cut := s.buffer[..newline], s.(buffer := s.buffer[newline + 1..]);
      var more := CutLines(cut.buffer, '\n');
      assert line + ['\n'] + cut.buffer == s.buffer;
      CutHead(line, '\n', cut.buffer);
      if read(line).Null? {
        NullDrained(line, more, Drain(s, read), read);
      } else {
        SameBuffer(cut, line, read);
        var t := HandleLine(cut, line, read).0;
        DrainGoesToNull(t, read);
        ThenKeeps(HandleLine(cut, line, read).1, Drain(t, read));
        LineDrained(line, more, Drain(t, read), Drain(s, read), read);
      }
    }
  }

  /** The chunk is taken in without a line that throws and without an oversized rest. */
  ghost predicate Taken(s: State, text: string, read: Reader) {
    var cut := CutLines(s.buffer + text, '\n');
    FirstNull(cut.lines, read) == |cut.lines| && |cut.rest| <= 1_048_576
  }

  /** Two chunks do what one chunk of both does. */
  ghost predicate SameAsOne(s: State, a: string, b: string, read: Reader) {
    var (t, out) := AfterConsume(s, a, read);
    var (u, more) := AfterConsume(t, b, read);
    AfterConsume(s, a + b, read) == (u, out + more)
  }

  lemma CutInTwo(s: State, a: string, b: string, read: Reader)
    requires Taken(s, a, read)
    ensures SameAsOne(s, a, b, read)
  {
    hide Drain, AfterFail, Then, CutLines, FirstNull;
    var start := s.(buffer := s.buffer + a);
    var d := Drain(start, read);
    DrainGoesToNull(start, read);
    DrainAppend(start, b, read);
    assert s.buffer + a + b == s.buffer + (a + b);
    assert start.(buffer := start.buffer + b) == s.(buffer := s.buffer + (a + b));
    var e := Drain(d.state.(buffer := d.state.buffer + b), read);
    ThenKeeps(d.out, e);
    var fail := AfterFail(e.state, "agent sent an oversized line");
    assert d.out + e.out + fail.1 == d.out + (e.out + fail.1);
  }

  function Feed(s: State, chunks: seq<string>, read: Reader): (State, seq<Output>)
    requires chunks != []
    decreases |chunks|
  {
    var (t, out) := AfterConsume(s, chunks[0], read);
    if |chunks| == 1 then (t, out)
    else
      var (u, more) := Feed(t, chunks[1..], read);
      (u, out + more)
  }

  ghost predicate AllTaken(s: State, chunks: seq<string>, read: Reader)
    decreases |chunks|
  {
    |chunks| > 1 ==> Taken(s, chunks[0], read) && AllTaken(AfterConsume(s, chunks[0], read).0, chunks[1..], read)
  }

  /** However the text is cut, the same lines are handled and the same rest is kept, as long as
      every rest on the way stays within the limit and no line throws before the last chunk. */
  lemma {:induction false} ChunkingIsInvisible(s: State, chunks: seq<string>, read: Reader)
    requires chunks != [] && AllTaken(s, chunks, read)
    ensures Feed(s, chunks, read) == AfterConsume(s, Concat(chunks), read)
    decreases |chunks|
  {
    hide AfterConsume, Taken;
    if |chunks| == 1 {
      assert chunks[1..] == [] && chunks[0] + [] == chunks[0];
    } else {
      ChunkingIsInvisible(AfterConsume(s, chunks[0], read).0, chunks[1..], read);
      CutInTwo(s, chunks[0], Concat(chunks[1..]), read);
    }
  }

  // ---- A line that throws ----

  lemma {:induction false} DrainShrinks(s: State, read: Reader)
    ensures |Drain(s, read).state.buffer| <= |s.buffer|
    ensures |Drain(s, read).state.buffer| == |s.buffer| <==> '\n' !in s.buffer
    ensures '\n' !in s.buffer ==> Drain(s, read) == Drained(s, [], false)
    decreases |s.buffer|
  {
    hide Drain, HandleLine, Then, IndexOf;
    DrainStep(s, read);
    var newline := IndexOf(s.buffer, '\n');
    if newline == |s.buffer| {
      assert s.buffer[..newline] == s.buffer;
    } else {
      var line, cut := s.buffer[..newline], s.(buffer := s.buffer[newline + 1..]);
      if !read(line).Null? {
        SameBuffer(cut, line, read);
        var t := HandleLine(cut, line, read).0;
        DrainShrinks(t, read);
        ThenKeeps(HandleLine(cut, line, read).1, Drain(t, read));
      }
    }
  }

  lemma {:induction false} DrainThrows(s: State, more: string, read: Reader)
    requires Drain(s, read).threw
    ensures var d := Drain(s, read);
      Drain(s.(buffer := s.buffer + more), read) == d.(state := d.state.(buffer := d.state.buffer + more))
    decreases |s.buffer|
  {
    hide Drain, HandleLine, IndexOf, Then;
    DrainStep(s, read);
    var newline := IndexOf(s.buffer, '\n');
    var longer := s.(buffer := s.buffer + more);
    if newline < |s.buffer| {
      var line, cut := s.buffer[..newline], s.(buffer := s.buffer[newline + 1..]);
      IndexInFront(s.buffer, more);
      assert longer.buffer[..newline] == line && longer.buffer[newline + 1..] == cut.buffer + more;
      DrainStep(longer, read);
      if !read(line).Null? {
        var t := HandleLine(cut, line, read).0;
        SameBuffer(cut, line, read);
        ThenKeeps(HandleLine(cut, line, read).1, Drain(t, read));
        DrainThrows(t, more, read);
        BufferAside(cut, cut.buffer + more, line, read);
        ThenKeeps(HandleLine(cut, line, read).1, Drain(t.(buffer := t.buffer + more), read));
      }
    }
  }

  // ---- When a cut shows ----

  lemma ThrownCut(s: State, a: string, b: string, read: Reader)
    requires Drain(s.(buffer := s.buffer + a), read).threw
    ensures var (t, out) := AfterConsume(s, a, read);
      && AfterConsume(s, a + b, read) == (t.(buffer := t.buffer + b), out)
      && (SameAsOne(s, a, b, read) <==> '\n' !in t.buffer + b && |t.buffer + b| <= MAX_UNTERMINATED_CHARS)
  {
    hide Drain;
    var start := s.(buffer := s.buffer + a);
    var d := Drain(start, read);
    DrainThrows(start, b, read);
    assert s.buffer + a + b == s.buffer + (a + b);
    assert start.(buffer := start.buffer + b) == s.(buffer := s.buffer + (a + b));
    DrainShrinks(d.state.(buffer := d.state.buffer + b), read);
    assert d.out + [] == d.out;
  }

  /** After a line that throws, lines already received wait for the next chunk. */
  lemma ThrowingLineShowsTheCut(s: State, a: string, b: string, read: Reader)
    requires var lines := CutLines(s.buffer + a, '\n').lines; FirstNull(lines, read) < |lines|
    ensures SameAsOne(s, a, b, read)
       <==> var whole := CutLines(s.buffer + a + b, '\n');
         FirstNull(whole.lines, read) == |whole.lines| - 1 && |whole.rest| <= 1_048_576
  {
    hide Drain, CutLines, FirstNull, SameAsOne;
    var start := s.(buffer := s.buffer + a);
    DrainGoesToNull(start, read);
    ThrownCut(s, a, b, read);
    DrainThrows(start, b, read);
    assert start.(buffer := start.buffer + b) == s.(buffer := s.buffer + a + b);
    DrainGoesToNull(s.(buffer := s.buffer + a + b), read);
    NoLine(AfterConsume(s, a, read).0.buffer + b, '\n');
  }

  lemma {:induction false} DrainTellsNothing(s: State, read: Reader)
    ensures forall o :: o in Drain(s, read).out ==> !o.Status?
    decreases |s.buffer|
  {
    hide Drain, IndexOf, Without;
    DrainStep(s, read);
    var newline := IndexOf(s.buffer, '\n');
    if newline < |s.buffer| {
      var line, cut := s.buffer[..newline], s.(buffer := s.buffer[newline + 1..]);
      if !read(line).Null? {
        SameBuffer(cut, line, read);
        DrainTellsNothing(HandleLine(cut, line, read).0, read);
      }
    }
  }

  /** A chunk tells of a lost connection at the end of what it gives, and only when it is cut off. */
  lemma StatusComesLast(s: State, text: string, read: Reader)
    ensures var (t, out) := AfterConsume(s, text, read);
      var cut := CutLines(s.buffer + text, '\n');
      var lost := FirstNull(cut.lines, read) == |cut.lines| && |cut.rest| > MAX_UNTERMINATED_CHARS;
      && (forall i :: 0 <= i < |out| && out[i].Status? ==> lost && i == |out| - 1)
      && (lost ==> t.buffer == "" && out != [] && out[|out| - 1].Status?)
      && (!lost ==> CutLines(t.buffer, '\n').rest == cut.rest)
  {
    hide Drain, CutLines, FirstNull;
    var start := s.(buffer := s.buffer + text);
    DrainGoesToNull(start, read);
    DrainTellsNothing(start, read);
  }

  lemma RestOfLonger(front: string, b: string)
    requires '\n' !in front && '\n' in b
    ensures CutLines(front + b, '\n').rest == CutLines(b, '\n').rest
  {
    hide CutLines;
    var i := IndexOf(b, '\n');
    assert b[..i] + ['\n'] + b[i + 1..] == b;
    assert front + b[..i] + ['\n'] + b[i + 1..] == front + b;
    CutHead(b[..i], '\n', b[i + 1..]);
    CutHead(front + b[..i], '\n', b[i + 1..]);
  }

  /** An oversized rest is thrown away with the connection: any more text would have been judged
      together with it. */
  lemma OversizedRestShowsTheCut(s: State, a: string, b: string, read: Reader)
    requires var cut := CutLines(s.buffer + a, '\n');
      FirstNull(cut.lines, read) == |cut.lines| && |cut.rest| > 1_048_576
    ensures SameAsOne(s, a, b, read) <==> b == ""
  {
    hide AfterConsume, CutLines, FirstNull;
    var (t, out) := AfterConsume(s, a, read);
    var (u, more) := AfterConsume(t, b, read);
    var (v, whole) := AfterConsume(s, a + b, read);
    StatusComesLast(s, a, read);
    if b == "" {
      NothingMore(t, read);
      assert a + b == a && out + [] == out;
    } else if SameAsOne(s, a, b, read) {
      StatusComesLast(t, b, read);
      StatusComesLast(s, a + b, read);
      assert whole[|out| - 1] == out[|out| - 1];
      assert more == [];
      assert s.buffer + (a + b) == s.buffer + a + b && t.buffer + b == b;
      CutAppend(s.buffer + a, b, '\n');
      NoLine(b, '\n');
      NoLine("", '\n');
      if '\n' in b {
        RestHasNoSeparator(s.buffer + a, '\n');
        RestOfLonger(CutLines(s.buffer + a, '\n').rest, b);
      }
      assert false;
    }
  }

  lemma NothingMore(t: State, read: Reader)
    requires t.buffer == ""
    ensures AfterConsume(t, "", read) == (t, [])
  {
    hide Drain;
    assert t.buffer + "" == "";
    DrainShrinks(t, read);
  }

  /** A cut of the text is invisible exactly when, at the cut, no line has read as null and the rest
      is within the limit or nothing more comes; or when a line has read as null, it is the last
      complete line of all the text, and what follows it is within the limit. */
  lemma {:induction false} CutShowsIff(s: State, a: string, b: string, read: Reader)
    ensures var before, whole := CutLines(s.buffer + a, '\n'), CutLines(s.buffer + a + b, '\n');
      SameAsOne(s, a, b, read)
      <==> if FirstNull(before.lines, read) == |before.lines|
           then |before.rest| <= 1_048_576 || b == ""
           else FirstNull(whole.lines, read) == |whole.lines| - 1 && |whole.rest| <= 1_048_576
  {
    hide AfterConsume, CutLines, FirstNull;
    var before := CutLines(s.buffer + a, '\n');
    if FirstNull(before.lines, read) < |before.lines| {
      ThrowingLineShowsTheCut(s, a, b, read);
    } else if |before.rest| > MAX_UNTERMINATED_CHARS {
      OversizedRestShowsTheCut(s, a, b, read);
    } else {
      CutInTwo(s, a, b, read);
    }
  }

  // ---- When any of many cuts shows ----

  /** A cut that is invisible before more text is invisible before less. */
  lemma SameForLess(s: State, a: string, p: string, r: string, read: Reader)
    requires SameAsOne(s, a, p + r, read)
    ensures SameAsOne(s, a, p, read)
  {
    hide SameAsOne, CutLines, FirstNull;
    CutShowsIff(s, a, p + r, read);
    CutShowsIff(s, a, p, read);
    var before, part := CutLines(s.buffer + a, '\n'), CutLines(s.buffer + a + p, '\n');
    if FirstNull(before.lines, read) < |before.lines| {
      CutAppend(s.buffer + a, p, '\n');
      CutAppend(s.buffer + a + p, r, '\n');
      assert s.buffer + a + p + r == s.buffer + a + (p + r);
      var whole := CutLines(s.buffer + a + (p + r), '\n');
      FirstNullIn(before.lines, part.lines, read);
      FirstNullIn(before.lines, whole.lines, read);
      RestHasNoSeparator(s.buffer + a + p, '\n');
      if |part.lines| == |whole.lines| {
        var more := CutLines(part.rest + r, '\n');
        NoLine(part.rest + r, '\n');
        assert more.lines == [] && more.rest == part.rest + r;
      }
    }
  }

  lemma FirstNullIn(lines: seq<string>, longer: seq<string>, read: Reader)
    requires lines <= longer && FirstNull(lines, read) < |lines|
    ensures FirstNull(longer, read) == FirstNull(lines, read)
  {
    hide FirstNull;
    var i, j := FirstNull(lines, read), FirstNull(longer, read);
    assert longer[i] == lines[i];
  }

  /** Behind an invisible cut, a later one shows just when it shows to what the first chunk left. */
  lemma CutBehind(s: State, a: string, p: string, r: string, read: Reader)
    requires SameAsOne(s, a, p, read) && SameAsOne(s, a, p + r, read)
    ensures SameAsOne(s, a + p, r, read) <==> SameAsOne(AfterConsume(s, a, read).0, p, r, read)
  {
    hide AfterConsume;
    var (t, out) := AfterConsume(s, a, read);
    var (v, first) := AfterConsume(t, p, read);
    var (w, second) := AfterConsume(v, r, read);
    var (u, both) := AfterConsume(t, p + r, read);
    assert a + (p + r) == a + p + r;
    assert out + first + second == out + (first + second);
    assert (out + both)[|out|..] == both && (out + (first + second))[|out|..] == first + second;
  }

  lemma ConsumeShrinks(s: State, text: string, read: Reader)
    ensures var t := AfterConsume(s, text, read).0;
      && |t.buffer| <= |s.buffer + text|
      && (|t.buffer| == |s.buffer + text| ==>
            '\n' !in s.buffer + text && |s.buffer + text| <= MAX_UNTERMINATED_CHARS && t.buffer == s.buffer + text)
  {
    hide Drain;
    DrainShrinks(s.(buffer := s.buffer + text), read);
  }

  /** All that was fed is still there only if it holds no line and is within the limit. */
  lemma {:induction false} FeedShrinks(s: State, chunks: seq<string>, read: Reader)
    requires chunks != []
    ensures var t, all := Feed(s, chunks, read).0, s.buffer + Concat(chunks);
      && |t.buffer| <= |all|
      && (|t.buffer| == |all| ==> '\n' !in all && |all| <= MAX_UNTERMINATED_CHARS)
    decreases |chunks|
  {
    hide AfterConsume;
    ConsumeShrinks(s, chunks[0], read);
    if |chunks| == 1 {
      assert chunks[1..] == [] && chunks[0] + [] == chunks[0];
    } else {
      FeedShrinks(AfterConsume(s, chunks[0], read).0, chunks[1..], read);
      assert s.buffer + chunks[0] + Concat(chunks[1..]) == s.buffer + Concat(chunks);
    }
  }

  /** Unless the connection is lost, the unterminated rest is that of all the text. */
  lemma {:induction false} FeedKeepsRest(s: State, chunks: seq<string>, read: Reader)
    requires chunks != [] && forall o :: o in Feed(s, chunks, read).1 ==> !o.Status?
    ensures CutLines(Feed(s, chunks, read).0.buffer, '\n').rest == CutLines(s.buffer + Concat(chunks), '\n').rest
    decreases |chunks|
  {
    hide AfterConsume, CutLines, FirstNull;
    var (t, out) := AfterConsume(s, chunks[0], read);
    StatusComesLast(s, chunks[0], read);
    if |chunks| == 1 {
      assert chunks[1..] == [] && chunks[0] + [] == chunks[0];
    } else {
      var rest := chunks[1..];
      assert forall o :: o in Feed(t, rest, read).1 ==> o in Feed(s, chunks, read).1;
      FeedKeepsRest(t, rest, read);
      CutAppend(t.buffer, Concat(rest), '\n');
      CutAppend(s.buffer + chunks[0], Concat(rest), '\n');
      assert s.buffer + chunks[0] + Concat(rest) == s.buffer + Concat(chunks);
    }
  }

  lemma OversizedCutStaysVisible(s: State, chunks: seq<string>, read: Reader)
    requires |chunks| > 1 && Concat(chunks[1..]) != ""
    requires var cut := CutLines(s.buffer + chunks[0], '\n');
      FirstNull(cut.lines, read) == |cut.lines| && |cut.rest| > MAX_UNTERMINATED_CHARS
    ensures Feed(s, chunks, read) != AfterConsume(s, Concat(chunks), read)
  {
    hide AfterConsume, CutLines, FirstNull;
    var a, rest := chunks[0], chunks[1..];
    var b := Concat(rest);
    var (t, out) := AfterConsume(s, a, read);
    var (u, more) := Feed(t, rest, read);
    var (v, whole) := AfterConsume(s, a + b, read);
    StatusComesLast(s, a, read);
    StatusComesLast(s, a + b, read);
    if u == v && out + more == whole {
      assert whole[|out| - 1] == out[|out| - 1];
      assert more == [];
      FeedKeepsRest(t, rest, read);
      assert s.buffer + (a + b) == s.buffer + a + b && t.buffer + b == b;
      CutAppend(s.buffer + a, b, '\n');
      NoLine(b, '\n');
      NoLine("", '\n');
      if '\n' in b {
        RestHasNoSeparator(s.buffer + a, '\n');
        RestOfLonger(CutLines(s.buffer + a, '\n').rest, b);
      }
      assert false;
    }
  }

  lemma ThrownCutStaysVisible(s: State, chunks: seq<string>, read: Reader)
    requires |chunks| > 1 && Drain(s.(buffer := s.buffer + chunks[0]), read).threw
    requires !SameAsOne(s, chunks[0], Concat(chunks[1..]), read)
    ensures Feed(s, chunks, read) != AfterConsume(s, Concat(chunks), read)
  {
    hide AfterConsume, Drain, SameAsOne;
    ThrownCut(s, chunks[0], Concat(chunks[1..]), read);
    FeedShrinks(AfterConsume(s, chunks[0], read).0, chunks[1..], read);
  }

  lemma FirstCutStaysVisible(s: State, chunks: seq<string>, read: Reader)
    requires |chunks| > 1 && !SameAsOne(s, chunks[0], Concat(chunks[1..]), read)
    ensures Feed(s, chunks, read) != AfterConsume(s, Concat(chunks), read)
  {
    hide AfterConsume, SameAsOne, Feed, Drain, CutLines, FirstNull;
    CutShowsIff(s, chunks[0], Concat(chunks[1..]), read);
    DrainGoesToNull(s.(buffer := s.buffer + chunks[0]), read);
    var cut := CutLines(s.buffer + chunks[0], '\n');
    if FirstNull(cut.lines, read) < |cut.lines| {
      ThrownCutStaysVisible(s, chunks, read);
    } else {
      OversizedCutStaysVisible(s, chunks, read);
    }
  }

  ghost predicate CutHides(s: State, chunks: seq<string>, k: nat, read: Reader)
    requires k <= |chunks|
  {
    SameAsOne(s, Concat(chunks[..k]), Concat(chunks[k..]), read)
  }

  lemma LaterCut(s: State, chunks: seq<string>, k: nat, read: Reader)
    requires 1 <= k < |chunks| - 1 && SameAsOne(s, chunks[0], Concat(chunks[1..]), read)
    ensures CutHides(AfterConsume(s, chunks[0], read).0, chunks[1..], k, read) <==> CutHides(s, chunks, k + 1, read)
  {
    hide SameAsOne, AfterConsume, Concat;
    var rest := chunks[1..];
    ConcatAppend(rest[..k], rest[k..]);
    assert rest[..k] + rest[k..] == rest && rest[k..] == chunks[k + 1..];
    assert chunks[..k + 1] == [chunks[0]] + rest[..k];
    ConcatHead(chunks[0], rest[..k]);
    SameForLess(s, chunks[0], Concat(rest[..k]), Concat(rest[k..]), read);
    CutBehind(s, chunks[0], Concat(rest[..k]), Concat(rest[k..]), read);
  }

  lemma ConcatHead(a: string, rest: seq<string>)
    ensures Concat([a] + rest) == a + Concat(rest)
  {
    assert ([a] + rest)[1..] == rest;
  }

  /** A cut into any number of chunks is invisible exactly when each of its cuts is, by itself. */
  lemma {:induction false} ManyCutsShowIff(s: State, chunks: seq<string>, read: Reader)
    requires chunks != []
    ensures Feed(s, chunks, read) == AfterConsume(s, Concat(chunks), read)
       <==> forall k :: 1 <= k < |chunks| ==> CutHides(s, chunks, k, read)
    decreases |chunks|
  {
    hide SameAsOne, AfterConsume, CutHides, Concat;
    if |chunks| == 1 {
      assert chunks == [chunks[0]] + [];
      ConcatHead(chunks[0], []);
      NothingJoined();
    } else {
      var rest := chunks[1..];
      assert chunks == [chunks[0]] + rest;
      ConcatHead(chunks[0], rest);
      FirstCut(s, chunks, read);
      if SameAsOne(s, chunks[0], Concat(rest), read) {
        var (t, out) := AfterConsume(s, chunks[0], read);
        ManyCutsShowIff(t, rest, read);
        FeedsAlike(s, chunks, read);
        forall k | 1 <= k < |rest| ensures CutHides(t, rest, k, read) <==> CutHides(s, chunks, k + 1, read) {
          LaterCut(s, chunks, k, read);
        }
        ShiftedCuts(s, t, chunks, read);
      } else {
        FirstCutStaysVisible(s, chunks, read);
      }
    }
  }

  lemma NothingJoined()
    ensures forall a: string :: a + Concat<char>([]) == a
  {
  }

  lemma FirstCut(s: State, chunks: seq<string>, read: Reader)
    requires |chunks| > 1
    ensures CutHides(s, chunks, 1, read) <==> SameAsOne(s, chunks[0], Concat(chunks[1..]), read)
  {
    hide SameAsOne, Concat;
    assert chunks[..1] == [chunks[0]] + [];
    ConcatHead(chunks[0], []);
    NothingJoined();
  }

  lemma FeedsAlike(s: State, chunks: seq<string>, read: Reader)
    requires |chunks| > 1 && SameAsOne(s, chunks[0], Concat(chunks[1..]), read)
    ensures var t := AfterConsume(s, chunks[0], read).0;
      Feed(s, chunks, read) == AfterConsume(s, Concat(chunks), read)
      <==> Feed(t, chunks[1..], read) == AfterConsume(t, Concat(chunks[1..]), read)
  {
    hide AfterConsume;
    var (t, out) := AfterConsume(s, chunks[0], read);
    var (u, more) := Feed(t, chunks[1..], read);
    var (v, rest) := AfterConsume(t, Concat(chunks[1..]), read);
    assert (out + more)[|out|..] == more && (out + rest)[|out|..] == rest;
  }

  lemma ShiftedCuts(s: State, t: State, chunks: seq<string>, read: Reader)
    requires |chunks| > 1 && CutHides(s, chunks, 1, read)
    requires forall k :: 1 <= k < |chunks| - 1 ==>
      (CutHides(t, chunks[1..], k, read) <==> CutHides(s, chunks, k + 1, read))
    ensures (forall k :: 1 <= k < |chunks| ==> CutHides(s, chunks, k, read))
       <==> (forall k :: 1 <= k < |chunks| - 1 ==> CutHides(t, chunks[1..], k, read))
  {
    hide CutHides;
    if forall k :: 1 <= k < |chunks| - 1 ==> CutHides(t, chunks[1..], k, read) {
      forall k | 1 <= k < |chunks| ensures CutHides(s, chunks, k, read) {
        if k > 1 {
          assert CutHides(t, chunks[1..], k - 1, read);
        }
      }
    }
  }

  lemma FirstLine(line: string, rest: string)
    requires '\n' !in line
    ensures IndexOf(line + ['\n'] + rest, '\n') == |line| < |line + ['\n'] + rest|
    ensures (line + ['\n'] + rest)[..|line|] == line && (line + ['\n'] + rest)[|line| + 1..] == rest
  {
    var all := line + ['\n'] + rest;
    assert all[..|line|] == line;
    IndexOfUnique(all, '\n', |line|);
  }

  lemma DrainNull(s: State, line: string, rest: string, read: Reader)
    requires '\n' !in line && read(line) == Null
    ensures Drain(s.(buffer := line + ['\n'] + rest), read) == Drained(s.(buffer := rest), [], true)
  {
    hide Drain, IndexOf;
    FirstLine(line, rest);
    DrainStep(s.(buffer := line + ['\n'] + rest), read);
  }

  lemma DrainEvent(s: State, line: string, read: Reader)
    requires '\n' !in line && read(line) == Event
    ensures Drain(s.(buffer := line + ['\n'] + ""), read) == Drained(s.(buffer := ""), [Pushed(line)], false)
  {
    hide Drain, IndexOf;
    FirstLine(line, "");
    DrainStep(s.(buffer := line + ['\n'] + ""), read);
    DrainShrinks(s.(buffer := ""), read);
  }

  /** For instance, a line that reads as null hides the event behind it when both come in one
      chunk. */
  lemma NullHidesTheNextLine(null_: string, event: string, read: Reader)
    requires '\n' !in null_ + event && read(null_) == Null && read(event) == Event
    ensures AfterConsume(INITIAL, null_ + ['\n'] + (event + ['\n']), read).1 == []
    ensures var (t, out) := AfterConsume(INITIAL, null_ + ['\n'], read);
      out == [] && AfterConsume(t, event + ['\n'], read).1 == [Pushed(event)]
  {
    hide Drain, IndexOf;
    DrainNull(INITIAL, null_, event + ['\n'], read);
    DrainNull(INITIAL, null_, "", read);
    DrainEvent(INITIAL, event, read);
    assert null_ + ['\n'] + "" == null_ + ['\n'] && event + ['\n'] + "" == event + ['\n'];
    assert "" + (null_ + ['\n'] + (event + ['\n'])) == null_ + ['\n'] + (event + ['\n']);
    assert "" + (null_ + ['\n']) == null_ + ['\n'] && "" + (event + ['\n']) == event + ['\n'];
  }
}
