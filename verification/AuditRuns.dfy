/** What the audit log promises over every run of appends. */
module AuditRuns {
  import opened Common
  import opened Lines
  import opened Text
  import opened AuditLog

  // ---- Reading back ----

  lemma {:induction false} FileCuts<E(!new)>(c: Config<E>, entries: seq<E>)
    requires c.Faithful()
    ensures CutLines(FileOf(c, entries), NEWLINE)
         == Cut(seq(|entries|, i requires 0 <= i < |entries| => c.encode(entries[i])), [])
  {
    hide CutLines;
    if entries == [] {
      NoLine<byte>([], NEWLINE);
    } else {
      FileCuts(c, entries[1..]);
      CutHead(c.encode(entries[0]), NEWLINE, FileOf(c, entries[1..]));
      assert NEWLINE !in c.encode(entries[0]);
      assert FileOf(c, entries) == c.encode(entries[0]) + [NEWLINE] + FileOf(c, entries[1..]);
    }
  }

  lemma {:induction false} EncodedScan<E(!new)>(c: Config<E>, entries: seq<E>, lines: seq<Bytes>)
    requires c.Faithful() && |lines| == |entries|
    requires forall i :: 0 <= i < |entries| ==> lines[i] == c.encode(entries[i])
    ensures Entries(c, lines) == entries
  {
    if entries != [] {
      EncodedScan(c, entries[1..], lines[1..]);
      assert c.scan(c.encode(entries[0])) == Entry(entries[0]);
    }
  }

  /** A log of written entries reads back as exactly those entries. */
  lemma WrittenReadsBack<E(!new)>(c: Config<E>, entries: seq<E>)
    requires c.Faithful()
    ensures ReadAll(c, FileOf(c, entries)) == entries
  {
    FileCuts(c, entries);
    var cut := CutLines(FileOf(c, entries), NEWLINE);
    EncodedScan(c, entries, cut.lines);
    assert cut.lines + [] == cut.lines;
  }

  lemma {:induction false} FileAppend<E(!new)>(c: Config<E>, a: seq<E>, e: E)
    ensures FileOf(c, a + [e]) == FileOf(c, a) + c.Line(e)
  {
    if a == [] {
      assert FileOf(c, [e]) == c.Line(e) + FileOf(c, []);
      assert a + [e] == [e];
    } else {
      assert (a + [e])[1..] == a[1..] + [e];
      FileAppend(c, a[1..], e);
    }
  }

  /** A log of written entries has one newline for each, and ends with it. */
  lemma {:induction false} OneNewlineEach<E(!new)>(c: Config<E>, entries: seq<E>)
    requires c.Faithful()
    ensures var file := FileOf(c, entries);
      multiset(file)[10] == |entries| && (entries != [] ==> file != [] && file[|file| - 1] == 10)
  {
    if entries != [] {
      var e, rest := entries[0], FileOf(c, entries[1..]);
      OneNewlineEach(c, entries[1..]);
      assert 10 !in c.encode(e);
      assert FileOf(c, entries) == c.encode(e) + [10] + rest;
      assert multiset(FileOf(c, entries)) == multiset(c.encode(e)) + multiset{10} + multiset(rest);
    }
  }

  // ---- What a trim keeps ----

  /** The count a trim keeps, said outright: within the count limit; in bytes within half the threshold,
      unless it is a single entry; and not one more would do. */
  ghost predicate IsKept<E(!new)>(c: Config<E>, entries: seq<E>, k: nat) {
    && k <= |entries| && k <= c.retain
    && (k > 1 ==> 2 * |FileOf(c, Last(entries, k))| <= c.threshold)
    && (k < |entries| && k < c.retain ==> k > 0 && 2 * |FileOf(c, Last(entries, k + 1))| > c.threshold)
  }

  lemma {:induction false} KeepCountIsKept<E(!new)>(c: Config<E>, entries: seq<E>, k: nat)
    requires k <= |entries| && k <= c.retain
    requires k > 1 ==> 2 * |FileOf(c, Last(entries, k))| <= c.threshold
    ensures IsKept(c, entries, KeepCount(c, entries, k))
    decreases |entries| - k
  {
    hide FileOf;
    if k < |entries| && k < c.retain && (k == 0 || 2 * |FileOf(c, Last(entries, k + 1))| <= c.threshold) {
      KeepCountIsKept(c, entries, k + 1);
    }
  }

  lemma {:induction false} LongerIsBigger<E(!new)>(c: Config<E>, entries: seq<E>, j: nat, k: nat)
    requires j <= k <= |entries|
    ensures |FileOf(c, Last(entries, j))| + (k - j) <= |FileOf(c, Last(entries, k))|
    decreases k
  {
    hide FileOf;
    if j < k {
      LongerIsBigger(c, entries, j, k - 1);
      LastStep(c, entries, k - 1);
    }
  }

  /** Only one count fits that description, so a trim keeps exactly that many. */
  lemma KeptIsUnique<E(!new)>(c: Config<E>, entries: seq<E>, k: nat)
    requires IsKept(c, entries, k)
    ensures k == KeepCount(c, entries, 0)
  {
    hide FileOf;
    var n := KeepCount(c, entries, 0);
    KeepCountIsKept(c, entries, 0);
    if k < n {
      LongerIsBigger(c, entries, k + 1, n);
    } else if n < k {
      LongerIsBigger(c, entries, n + 1, k);
    }
  }

  // ---- Runs ----

  /** The file after appending these entries to an empty log. */
  function After<E(!new)>(c: Config<E>, entries: seq<E>): Bytes {
    if entries == [] then []
    else Trimmed(c, After(c, entries[..|entries| - 1]) + c.Line(entries[|entries| - 1]))
  }

  lemma TrimOfWritten<E(!new)>(c: Config<E>, held: seq<E>) returns (kept: seq<E>)
    requires c.Faithful() && c.retain >= 1 && held != []
    ensures Trimmed(c, FileOf(c, held)) == FileOf(c, kept)
    ensures 0 < |kept| <= |held| && kept == Last(held, |kept|)
    ensures |FileOf(c, kept)| <= c.threshold || |kept| == 1
    ensures |FileOf(c, held)| > c.threshold ==> 2 * |FileOf(c, kept)| <= c.threshold || |kept| == 1
  {
    hide FileOf;
    WrittenReadsBack(c, held);
    KeepCountIsKept(c, held, 0);
    if |FileOf(c, held)| <= c.threshold {
      kept := held;
    } else {
      kept := Kept(c, held);
    }
  }

  /** With at least one entry retained, after every append the log holds a nonempty suffix of
      everything appended, ending with the newest, and is within the threshold unless that
      suffix is a single entry. */
  lemma {:induction false} LogIsASuffix<E(!new)>(c: Config<E>, entries: seq<E>) returns (n: nat)
    requires c.Faithful() && c.retain >= 1 && entries != []
    ensures 0 < n <= |entries|
    ensures After(c, entries) == FileOf(c, Last(entries, n)) && ReadAll(c, After(c, entries)) == Last(entries, n)
    ensures |After(c, entries)| <= c.threshold || n == 1
    decreases |entries|
  {
    hide FileOf, Trimmed;
    var before, e := entries[..|entries| - 1], entries[|entries| - 1];
    assert before + [e] == entries;
    var held := [e];
    if before == [] {
      EmptyFile(c);
    } else {
      var m := LogIsASuffix(c, before);
      held := Last(before, m) + [e];
      FileAppend(c, Last(before, m), e);
    }
    FileAppend(c, [], e);
    assert [] + [e] == [e];
    assert held == Last(entries, |held|);
    var kept := TrimOfWritten(c, held);
    n := |kept|;
    assert kept == Last(entries, n);
    assert [] + c.Line(e) == c.Line(e);
    WrittenReadsBack(c, kept);
  }

  lemma EmptyFile<E(!new)>(c: Config<E>)
    ensures FileOf(c, []) == []
  {
  }

  /** What `recent` answers, newest first: the reverse of the last entries appended, as many as
      were asked for and are still held. */
  lemma RecentIsNewestFirst<E(!new)>(c: Config<E>, entries: seq<E>, limit: nat) returns (n: nat)
    requires c.Faithful() && c.retain >= 1 && entries != []
    ensures 0 < n <= |entries|
    ensures var all := ReadAll(c, After(c, entries));
      Reversed(Last(all, Min(limit, |all|))) == Reversed(Last(entries, Min(limit, n)))
    ensures limit > 0 ==> Reversed(Last(entries, Min(limit, n)))[0] == entries[|entries| - 1]
  {
    hide After, FileOf, ReadAll;
    n := LogIsASuffix(c, entries);
    assert Last(Last(entries, n), Min(limit, n)) == Last(entries, Min(limit, n));
  }

  // ---- Amortised cost ----

  function Appended<E(!new)>(c: Config<E>, entries: seq<E>): nat {
    if entries == [] then 0
    else Appended(c, entries[..|entries| - 1]) + |c.Line(entries[|entries| - 1])|
  }

  function Rewritten<E(!new)>(c: Config<E>, entries: seq<E>): nat {
    if entries == [] then 0
    else
      var before := entries[..|entries| - 1];
      Rewritten(c, before) + Rewrite(c, After(c, before) + c.Line(entries[|entries| - 1]))
  }

  /** Bytes held beyond half the threshold: what the next trim is paid with. */
  function Credit<E(!new)>(c: Config<E>, file: Bytes): nat {
    if |file| > c.threshold / 2 then |file| - c.threshold / 2 else 0
  }

  ghost predicate SmallLines<E(!new)>(c: Config<E>, entries: seq<E>) {
    forall i :: 0 <= i < |entries| ==> 2 * |c.Line(entries[i])| <= c.threshold
  }

  lemma KeptFitsHalf<E(!new)>(c: Config<E>, held: seq<E>)
    requires SmallLines(c, held)
    ensures 2 * |FileOf(c, Kept(c, held))| <= c.threshold
  {
    hide FileOf;
    KeepCountIsKept(c, held, 0);
    NothingLast(c, held);
    if KeepCount(c, held, 0) == 1 {
      LastStep(c, held, 0);
    }
  }

  /** A trim of written entries costs no more than the credit it uses up. */
  lemma TrimIsPaidFor<E(!new)>(c: Config<E>, held: seq<E>)
    requires c.Faithful() && SmallLines(c, held)
    ensures var file := FileOf(c, held);
      Rewrite(c, file) + Credit(c, Trimmed(c, file)) <= Credit(c, file)
  {
    hide FileOf, ReadAll, Kept, SmallLines;
    WrittenReadsBack(c, held);
    KeptFitsHalf(c, held);
  }

  lemma TrimKeepsSuffix<E(!new)>(c: Config<E>, held: seq<E>) returns (n: nat)
    requires c.Faithful()
    ensures n <= |held| && Trimmed(c, FileOf(c, held)) == FileOf(c, Last(held, n))
  {
    hide FileOf;
    WrittenReadsBack(c, held);
    n := if |FileOf(c, held)| > c.threshold && |Kept(c, held)| < |held| then |Kept(c, held)| else |held|;
  }

  lemma NothingHeld<E(!new)>(c: Config<E>)
    ensures After(c, []) == FileOf(c, []) && Last<E>([], 0) == []
  {
  }

  lemma AfterStep<E(!new)>(c: Config<E>, entries: seq<E>)
    requires entries != []
    ensures var n := |entries| - 1;
      After(c, entries) == Trimmed(c, After(c, entries[..n]) + c.Line(entries[n]))
  {
    hide Trimmed;
  }

  lemma LastOfLast<E>(entries: seq<E>, m: nat, n: nat)
    requires entries != [] && m <= |entries| - 1 && n <= m + 1
    ensures Last(Last(entries[..|entries| - 1], m) + [entries[|entries| - 1]], n) == Last(entries, n)
  {
  }

  lemma {:induction false} SomeSuffixIsHeld<E(!new)>(c: Config<E>, entries: seq<E>) returns (n: nat)
    requires c.Faithful()
    ensures n <= |entries| && After(c, entries) == FileOf(c, Last(entries, n))
    decreases |entries|
  {
    hide FileOf, Trimmed, After, Last;
    if entries == [] {
      NothingHeld(c);
      n := 0;
    } else {
      var before, e := entries[..|entries| - 1], entries[|entries| - 1];
      var m := SomeSuffixIsHeld(c, before);
      var held := Last(before, m) + [e];
      FileAppend(c, Last(before, m), e);
      n := TrimKeepsSuffix(c, held);
      AfterStep(c, entries);
      LastOfLast(entries, m, n);
    }
  }

  /** From an empty log, over any run of appends whose lines each are at most half the threshold, trims
      never rewrite more bytes in all than the appends wrote. */
  lemma {:induction false} RewritingIsAmortised<E(!new)>(c: Config<E>, entries: seq<E>)
    requires c.Faithful() && SmallLines(c, entries)
    ensures Rewritten(c, entries) + Credit(c, After(c, entries)) <= Appended(c, entries)
    decreases |entries|
  {
    hide FileOf, Rewrite, Trimmed;
    if entries != [] {
      var before, e := entries[..|entries| - 1], entries[|entries| - 1];
      RewritingIsAmortised(c, before);
      var n := SomeSuffixIsHeld(c, before);
      var held := Last(before, n) + [e];
      FileAppend(c, Last(before, n), e);
      TrimIsPaidFor(c, held);
    }
  }

  // ---- Any file at all ----

  /** These entries are what a trim would keep of themselves: within the count limit, and within
      the byte budget unless there is only one. */
  ghost predicate AllMayStay<E(!new)>(c: Config<E>, entries: seq<E>) {
    |entries| <= c.retain && (|entries| > 1 ==> 2 * |FileOf(c, entries)| <= c.threshold)
  }

  lemma AllKeptIff<E(!new)>(c: Config<E>, entries: seq<E>)
    ensures |Kept(c, entries)| == |entries| <==> AllMayStay(c, entries)
  {
    hide FileOf;
    var n := |entries|;
    assert Last(entries, n) == entries;
    KeepCountIsKept(c, entries, 0);
    if AllMayStay(c, entries) {
      KeptIsUnique(c, entries, n);
    }
  }

  /** The newest entry is too big for the threshold on its own, and may not be dropped. */
  ghost predicate NewestIsTooBig<E(!new)>(c: Config<E>, entries: seq<E>) {
    entries != [] && c.retain >= 1 && |c.Line(entries[|entries| - 1])| > c.threshold
  }

  lemma TooBigIsKeptAlone<E(!new)>(c: Config<E>, entries: seq<E>)
    requires |Kept(c, entries)| < |entries|
    ensures |FileOf(c, Kept(c, entries))| > c.threshold <==> NewestIsTooBig(c, entries)
  {
    hide FileOf;
    var k, n := KeepCount(c, entries, 0), |entries|;
    KeepCountIsKept(c, entries, 0);
    NothingLast(c, entries);
    LastStep(c, entries, 0);
    assert c.Line(entries[n - 1]) + [] == c.Line(entries[n - 1]);
    if k > 1 {
      LongerIsBigger(c, entries, 1, k);
    }
  }

  /** Whatever bytes are in the file, a trim leaves it over the threshold exactly when it was over
      and either the entries that can be read may all stay, so that nothing is rewritten whatever
      else is in the file, or the newest of them is too big on its own. */
  lemma OverThresholdIff<E(!new)>(c: Config<E>, file: Bytes)
    ensures var entries := ReadAll(c, file);
      |Trimmed(c, file)| > c.threshold
      <==> |file| > c.threshold && (AllMayStay(c, entries) || NewestIsTooBig(c, entries))
  {
    hide ReadAll, FileOf, AllMayStay, NewestIsTooBig, Kept;
    var entries := ReadAll(c, file);
    AllKeptIff(c, entries);
    KeptIsShorter(c, entries);
    if |Kept(c, entries)| < |entries| {
      TooBigIsKeptAlone(c, entries);
    }
  }

  lemma KeptIsShorter<E(!new)>(c: Config<E>, entries: seq<E>)
    ensures |Kept(c, entries)| <= |entries|
  {
  }

  /** A trim leaves the file alone when it fits or the entries that can be read may all stay, and,
      for a faithful encoding, in no other case: bytes that read as no entry are not counted. */
  lemma UntouchedIff<E(!new)>(c: Config<E>, file: Bytes)
    ensures var fits := |file| <= c.threshold || AllMayStay(c, ReadAll(c, file));
      && (fits ==> Trimmed(c, file) == file)
      && (c.Faithful() && Trimmed(c, file) == file ==> fits)
  {
    hide ReadAll, FileOf, AllMayStay, Kept;
    var entries := ReadAll(c, file);
    AllKeptIff(c, entries);
    KeptIsShorter(c, entries);
    if c.Faithful() {
      WrittenReadsBack(c, Kept(c, entries));
    }
  }

  // ---- A line that cannot be read ----

  /** Some complete line ends the reading: what is appended after it is not read. */
  ghost predicate Blocked<E(!new)>(c: Config<E>, file: Bytes) {
    exists i :: 0 <= i < |CutLines(file, NEWLINE).lines| && c.scan(CutLines(file, NEWLINE).lines[i]) == Unreadable
  }

  lemma {:induction false} EntriesStop<E(!new)>(c: Config<E>, lines: seq<Bytes>, more: seq<Bytes>, i: nat)
    requires i < |lines| && c.scan(lines[i]) == Unreadable
    ensures Entries(c, lines + more) == Entries(c, lines)
  {
    assert (lines + more)[1..] == lines[1..] + more;
    if i > 0 {
      EntriesStop(c, lines[1..], more, i - 1);
    }
  }

  /** What stands behind an unreadable line is not read, and the line stays where it is. */
  lemma BlockedStays<E(!new)>(c: Config<E>, file: Bytes, more: Bytes)
    requires Blocked(c, file)
    ensures Blocked(c, file + more) && ReadAll(c, file + more) == ReadAll(c, file)
  {
    hide CutLines;
    var first, rest := CutLines(file, NEWLINE), CutLines(CutLines(file, NEWLINE).rest + more, NEWLINE);
    CutAppend(file, more, NEWLINE);
    var i :| 0 <= i < |first.lines| && c.scan(first.lines[i]) == Unreadable;
    var whole := CutLines(file + more, NEWLINE);
    assert whole.lines[i] == first.lines[i];
    var last: seq<Bytes> := if whole.rest == [] then [] else [whole.rest];
    EntriesStop(c, first.lines, rest.lines + last, i);
    assert whole.lines + last == first.lines + (rest.lines + last);
    EntriesStop(c, first.lines, if first.rest == [] then [] else [first.rest], i);
  }

  /** The file after these appends to a given one. */
  function Grown<E(!new)>(c: Config<E>, file: Bytes, entries: seq<E>): Bytes {
    if entries == [] then file
    else
      var n := |entries| - 1;
      Trimmed(c, Grown(c, file, entries[..n]) + c.Line(entries[n]))
  }

  /** Behind an unreadable line the log is no longer bounded, however large: while the entries
      before it may all stay, every append stays in the file, unread and never trimmed. */
  lemma {:induction false} BlockedGrowsForever<E(!new)>(c: Config<E>, file: Bytes, entries: seq<E>)
    requires Blocked(c, file) && AllMayStay(c, ReadAll(c, file))
    ensures Grown(c, file, entries) == file + FileOf(c, entries)
    ensures ReadAll(c, Grown(c, file, entries)) == ReadAll(c, file)
    decreases |entries|
  {
    hide ReadAll, AllMayStay, Blocked, Kept;
    if entries == [] {
      assert file + FileOf(c, entries) == file;
    } else {
      hide FileOf;
      var n := |entries| - 1;
      BlockedGrowsForever(c, file, entries[..n]);
      assert entries == entries[..n] + [entries[n]];
      FileAppend(c, entries[..n], entries[n]);
      var grown := file + FileOf(c, entries[..n]) + c.Line(entries[n]);
      assert grown == file + FileOf(c, entries);
      BlockedStays(c, file, FileOf(c, entries));
      AllKeptIff(c, ReadAll(c, file));
    }
  }

  /** The next append stays in such a file exactly when it still fits, or when the entries before
      the unreadable line may all stay. Otherwise it is lost with everything else unread. */
  lemma BlockedAppendStaysIff<E(!new)>(c: Config<E>, file: Bytes, e: E)
    requires c.Faithful() && Blocked(c, file)
    ensures var longer, before := file + c.Line(e), ReadAll(c, file);
      && (Trimmed(c, longer) == longer <==> |longer| <= c.threshold || AllMayStay(c, before))
      && (Trimmed(c, longer) != longer ==> Trimmed(c, longer) == FileOf(c, Kept(c, before)))
  {
    hide ReadAll, AllMayStay, Blocked, Kept, FileOf;
    BlockedStays(c, file, c.Line(e));
    UntouchedIff(c, file + c.Line(e));
  }

  // ---- An append to any file ----

  /** The file ends in bytes without a newline: a write that was cut short. */
  function Tail(file: Bytes): Bytes {
    CutLines(file, NEWLINE).rest
  }

  /** The entries of the complete lines. */
  function Complete<E(!new)>(c: Config<E>, file: Bytes): seq<E> {
    Entries(c, CutLines(file, NEWLINE).lines)
  }

  lemma {:induction false} EntriesGoOn<E(!new)>(c: Config<E>, lines: seq<Bytes>, more: seq<Bytes>)
    requires forall i :: 0 <= i < |lines| ==> c.scan(lines[i]) != Unreadable
    ensures Entries(c, lines + more) == Entries(c, lines) + Entries(c, more)
  {
    if lines == [] {
      assert lines + more == more;
    } else {
      assert (lines + more)[1..] == lines[1..] + more;
      EntriesGoOn(c, lines[1..], more);
    }
  }

  /** What one more line adds to what is read. */
  function Reads<E>(scanned: Scanned<E>): seq<E> {
    if scanned.Entry? then [scanned.entry] else []
  }

  lemma OneLineReads<E(!new)>(c: Config<E>, line: Bytes)
    ensures Entries(c, [line]) == Reads(c.scan(line))
  {
    assert [line][1..] == [];
  }

  lemma TailReads<E(!new)>(c: Config<E>, file: Bytes)
    requires !Blocked(c, file)
    ensures ReadAll(c, file) == Complete(c, file) + if Tail(file) == [] then [] else Reads(c.scan(Tail(file)))
  {
    hide CutLines;
    var cut := CutLines(file, NEWLINE);
    if cut.rest == [] {
      assert cut.lines + [] == cut.lines;
    } else {
      EntriesGoOn(c, cut.lines, [cut.rest]);
      OneLineReads(c, cut.rest);
    }
  }

  /** The line that an append completes: the tail and the entry together. */
  lemma AppendCuts<E(!new)>(c: Config<E>, file: Bytes, e: E)
    requires NEWLINE !in c.encode(e)
    ensures CutLines(file + c.Line(e), NEWLINE)
         == Cut(CutLines(file, NEWLINE).lines + [Tail(file) + c.encode(e)], [])
  {
    hide CutLines;
    var joined := Tail(file) + c.encode(e);
    CutAppend(file, c.Line(e), NEWLINE);
    RestHasNoSeparator(file, NEWLINE);
    CutHead(joined, NEWLINE, []);
    NoLine<byte>([], NEWLINE);
    assert joined + [NEWLINE] + [] == Tail(file) + c.Line(e);
  }

  /** The line so completed is read as whatever it then says: perhaps as another entry, perhaps as
      none; and if it cannot be read, nothing behind it ever is. */
  lemma AppendJoinsTheTail<E(!new)>(c: Config<E>, file: Bytes, e: E)
    requires c.Faithful() && !Blocked(c, file)
    ensures var longer, scanned := file + c.Line(e), c.scan(Tail(file) + c.encode(e));
      && ReadAll(c, longer) == Complete(c, file) + Reads(scanned)
      && (Blocked(c, longer) <==> scanned == Unreadable)
  {
    hide CutLines;
    var lines, joined := CutLines(file, NEWLINE).lines, Tail(file) + c.encode(e);
    AppendCuts(c, file, e);
    var longer := CutLines(file + c.Line(e), NEWLINE).lines;
    assert longer == lines + [joined] && longer[|lines|] == joined;
    EntriesGoOn(c, lines, [joined]);
    OneLineReads(c, joined);
    assert longer + [] == longer;
  }

  /** An append to any file reads back, behind all that was read before, exactly when no complete
      line ends the reading and nothing hangs over the last of them, unless what hangs over reads
      as no entry alone and as the appended one when joined to it. */
  lemma {:induction false} AppendReadsBackIff<E(!new)>(c: Config<E>, file: Bytes, e: E)
    requires c.Faithful()
    ensures ReadAll(c, file + c.Line(e)) == ReadAll(c, file) + [e]
      <==> && !Blocked(c, file)
           && (|| Tail(file) == []
               || (!c.scan(Tail(file)).Entry? && c.scan(Tail(file) + c.encode(e)) == Entry(e)))
  {
    hide ReadAll, Blocked, Tail, Complete, Reads;
    if Blocked(c, file) {
      BlockedStays(c, file, c.Line(e));
      assert |ReadAll(c, file) + [e]| != |ReadAll(c, file)|;
    } else {
      TailReads(c, file);
      AppendJoinsTheTail(c, file, e);
      var before := if Tail(file) == [] then [] else Reads(c.scan(Tail(file)));
      var joined := c.scan(Tail(file) + c.encode(e));
      SameEnding(Complete(c, file), before, Reads(joined), e);
      ReadsNothingOrOne(c.scan(Tail(file)));
      OneMoreRead(before, joined, e);
      if Tail(file) == [] {
        assert Tail(file) + c.encode(e) == c.encode(e) && c.scan(c.encode(e)) == Entry(e);
      }
    }
  }

  lemma ReadsNothingOrOne<E>(scanned: Scanned<E>)
    ensures |Reads(scanned)| <= 1 && (Reads(scanned) == [] <==> !scanned.Entry?)
  {
  }

  lemma OneMoreRead<E>(before: seq<E>, scanned: Scanned<E>, e: E)
    ensures Reads(scanned) == before + [e] <==> before == [] && scanned == Entry(e)
  {
    if before == [] {
      assert before + [e] == [e];
    }
  }

  lemma SameEnding<E>(front: seq<E>, before: seq<E>, after: seq<E>, e: E)
    ensures front + after == front + before + [e] <==> after == before + [e]
  {
    assert (front + after)[|front|..] == after;
    assert (front + before + [e])[|front|..] == before + [e];
    assert front + (before + [e]) == front + before + [e];
  }

  /** What the trim that follows leaves to read: the newest of it, and never nothing of something. */
  lemma TrimKeepsNewest<E(!new)>(c: Config<E>, file: Bytes) returns (n: nat)
    requires c.Faithful()
    ensures var entries := ReadAll(c, file);
      && n <= |entries| && ReadAll(c, Trimmed(c, file)) == Last(entries, n)
      && (c.retain >= 1 && entries != [] ==> n >= 1)
  {
    hide ReadAll, FileOf;
    var entries := ReadAll(c, file);
    n := if Trimmed(c, file) == file then |entries| else KeepCount(c, entries, 0);
    WrittenReadsBack(c, Kept(c, entries));
    KeepCountIsKept(c, entries, 0);
    assert Last(entries, |entries|) == entries;
  }

  lemma {:induction false} GrownOn<E(!new)>(c: Config<E>, file: Bytes, e: E, entries: seq<E>)
    ensures Grown(c, file, [e] + entries) == Grown(c, Trimmed(c, file + c.Line(e)), entries)
    decreases |entries|
  {
    hide Trimmed;
    var all, n := [e] + entries, |entries|;
    if n == 0 {
      assert all[..0] == [] && all[0] == e;
    } else {
      GrownOn(c, file, e, entries[..n - 1]);
      assert all[..n] == [e] + entries[..n - 1] && all[n] == entries[n - 1];
    }
  }

  /** When what hangs over makes the next entry unreadable, it stays in the file, and so does every
      later one, as long as the entries before may all stay; none of them is ever read. */
  lemma TornWriteBlocks<E(!new)>(c: Config<E>, file: Bytes, e: E, entries: seq<E>)
    requires c.Faithful() && !Blocked(c, file) && c.scan(Tail(file) + c.encode(e)) == Unreadable
    requires AllMayStay(c, Complete(c, file))
    ensures Grown(c, file, [e] + entries) == file + FileOf(c, [e] + entries)
    ensures ReadAll(c, Grown(c, file, [e] + entries)) == Complete(c, file)
  {
    hide ReadAll, Blocked, Grown, Tail, Complete, AllMayStay, Trimmed, Kept;
    var longer := file + c.Line(e);
    AppendJoinsTheTail(c, file, e);
    assert ReadAll(c, longer) == Complete(c, file);
    UntouchedIff(c, longer);
    GrownOn(c, file, e, entries);
    BlockedGrowsForever(c, longer, entries);
    assert ([e] + entries)[1..] == entries;
    assert longer + FileOf(c, entries) == file + FileOf(c, [e] + entries);
  }

  // ---- A write cut short ----

  /** Reading ends just at a line that is no text, as `lines` ends it. */
  ghost predicate ReadsText<E(!new)>(c: Config<E>) {
    forall line :: c.scan(line) == Unreadable <==> !Utf8(line)
  }

  /** The file once an append has got no further than this. */
  function CutShort<E(!new)>(c: Config<E>, file: Bytes, x: E, n: nat): Bytes
    requires n <= |c.encode(x)|
  {
    file + c.encode(x)[..n]
  }

  lemma CutShortTail<E(!new)>(c: Config<E>, file: Bytes, x: E, n: nat)
    requires c.Faithful() && n <= |c.encode(x)| && Tail(file) == []
    ensures var torn := CutShort(c, file, x, n);
      && Tail(torn) == c.encode(x)[..n] && Complete(c, torn) == Complete(c, file)
      && (Blocked(c, torn) <==> Blocked(c, file))
  {
    hide CutLines;
    var part := c.encode(x)[..n];
    assert NEWLINE !in c.encode(x) && NEWLINE !in part;
    CutAppend(file, part, NEWLINE);
    NoLine(part, NEWLINE);
    assert [] + part == part;
    var cut := CutLines(file, NEWLINE);
    assert cut.lines + [] == cut.lines;
  }

  lemma EncodedIsText<E(!new)>(c: Config<E>, e: E)
    requires c.Faithful() && ReadsText(c)
    ensures Utf8(c.encode(e))
  {
    assert c.scan(c.encode(e)) == Entry(e);
  }

  /** After a write that was cut short, what is appended next makes the log unreadable from there on
      exactly when the cut fell within a character, whatever the encoding, the write and the append. */
  lemma {:induction false} TornWriteBlocksIff<E(!new)>(c: Config<E>, file: Bytes, x: E, n: nat, e: E)
    requires c.Faithful() && ReadsText(c) && n <= |c.encode(x)|
    requires Tail(file) == [] && !Blocked(c, file)
    ensures Blocked(c, CutShort(c, file, x, n) + c.Line(e)) <==> WithinCharacter(c.encode(x), n)
  {
    hide CutLines, Utf8, Blocked, Tail, Complete;
    CutShortTail(c, file, x, n);
    EncodedIsText(c, x);
    EncodedIsText(c, e);
    CutTextIff(c.encode(x), n, c.encode(e));
    AppendJoinsTheTail(c, CutShort(c, file, x, n), e);
  }

  /** And then nothing appended is ever read, and all of it stays while what was read before may. */
  lemma {:induction false} TornWriteLosesTheRest<E(!new)>(c: Config<E>, file: Bytes, x: E, n: nat, e: E,
                                                          entries: seq<E>)
    requires c.Faithful() && ReadsText(c) && WithinCharacter(c.encode(x), n)
    requires Tail(file) == [] && !Blocked(c, file) && AllMayStay(c, ReadAll(c, file))
    ensures var torn := CutShort(c, file, x, n);
      && Grown(c, torn, [e] + entries) == torn + FileOf(c, [e] + entries)
      && ReadAll(c, Grown(c, torn, [e] + entries)) == ReadAll(c, file)
  {
    hide CutLines, Utf8, Blocked, Tail, Complete, AllMayStay, Grown, FileOf, ReadAll;
    CutShortTail(c, file, x, n);
    TailReads(c, file);
    assert ReadAll(c, file) == Complete(c, file);
    TornWriteBlocksIff(c, file, x, n, e);
    AppendJoinsTheTail(c, CutShort(c, file, x, n), e);
    TornWriteBlocks(c, CutShort(c, file, x, n), e, entries);
  }

  /** A log of yes and no, one of them written as a character of two bytes. */
  function Letter(on: bool): Bytes {
    if on then [0xC3, 0xA9] else [0x30]
  }

  function ScanLetter(line: Bytes): Scanned<bool> {
    if !Utf8(line) then Unreadable
    else if line == Letter(true) then Entry(true)
    else if line == Letter(false) then Entry(false)
    else Skipped
  }

  lemma LettersAreText()
    ensures Utf8(Letter(true)) && Utf8(Letter(false)) && WithinCharacter(Letter(true), 1)
  {
  }

  /** Such logs exist, with the limits of the program: nothing appended to this one is ever read, and
      all of it stays. */
  lemma {:induction false} TornExample(e: bool, entries: seq<bool>) returns (c: Config<bool>, file: Bytes)
    ensures c == Config(Letter, ScanLetter, 500, 512 * 1024) && c.Faithful() && ReadsText(c)
    ensures file == CutShort(c, [], true, 1)
    ensures Grown(c, file, [e] + entries) == file + FileOf(c, [e] + entries)
    ensures ReadAll(c, Grown(c, file, [e] + entries)) == []
  {
    hide Utf8, Grown, FileOf;
    c := Config(Letter, ScanLetter, 500, 512 * 1024);
    file := CutShort(c, [], true, 1);
    LettersAreText();
    NoLine<byte>([], NEWLINE);
    TornWriteLosesTheRest(c, [], true, 1, e, entries);
  }
}
