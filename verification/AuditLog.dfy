/** The bounded audit log (audit.rs), down to the bytes of its file.

    Serialization is abstract: `encode` gives an entry's JSON text, which holds no newline, and
    `scan` says what reading one line of the file gives. Any bytes may be in the file. */
module AuditLog {
  import opened Common
  import opened Lines

  const NEWLINE: byte := 0x0A

  type Bytes = seq<byte>

  /** Reading one line: an entry, a line that is not one, or bytes that end the reading. */
  datatype Scanned<+E> = Entry(entry: E) | Skipped | Unreadable

  /** How entries are written and read, and the log's limits. */
  datatype Config<!E(!new)> = Config(encode: E -> Bytes, scan: Bytes -> Scanned<E>, retain: nat, threshold: nat) {
    function Line(e: E): Bytes {
      encode(e) + [NEWLINE]
    }

    function Budget(): nat {
      threshold / 2
    }

    /** Serialization round-trips and never breaks a line. */
    ghost predicate Faithful() {
      forall e: E :: NEWLINE !in encode(e) && scan(encode(e)) == Entry(e)
    }
  }

  /** The entries of a list of lines, up to the first unreadable one. */
  function Entries<E(!new)>(c: Config<E>, lines: seq<Bytes>): seq<E> {
    if lines == [] then []
    else
      match c.scan(lines[0])
      case Unreadable => []
      case Skipped => Entries(c, lines[1..])
      case Entry(e) => [e] + Entries(c, lines[1..])
  }

  function ReadAll<E(!new)>(c: Config<E>, file: Bytes): seq<E> {
    var cut := CutLines(file, NEWLINE);
    Entries(c, cut.lines + (if cut.rest == [] then [] else [cut.rest]))
  }

  /** The bytes of these entries, as a log holds them. */
  function FileOf<E(!new)>(c: Config<E>, entries: seq<E>): Bytes {
    if entries == [] then [] else c.Line(entries[0]) + FileOf(c, entries[1..])
  }

  function Last<T>(s: seq<T>, k: nat): (r: seq<T>)
    requires k <= |s|
    ensures |r| == k
  {
    s[|s| - k..]
  }

  /** How many of the newest entries a trim keeps, having taken `k` already: as many as the
      count and the byte budget allow, and always one if any may be kept at all. */
  function KeepCount<E(!new)>(c: Config<E>, entries: seq<E>, k: nat): (r: nat)
    requires k <= |entries|
    ensures k <= r <= |entries|
    decreases |entries| - k
  {
    if k == |entries| || k >= c.retain then k
    else if k > 0 && |FileOf(c, Last(entries, k + 1))| > c.Budget() then k
    else KeepCount(c, entries, k + 1)
  }

  function Kept<E(!new)>(c: Config<E>, entries: seq<E>): seq<E> {
    Last(entries, KeepCount(c, entries, 0))
  }

  function Trimmed<E(!new)>(c: Config<E>, file: Bytes): Bytes {
    if |file| <= c.threshold then file
    else
      var entries := ReadAll(c, file);
      var kept := Kept(c, entries);
      if |kept| >= |entries| then file else FileOf(c, kept)
  }

  function Reversed<T>(s: seq<T>): (r: seq<T>)
    ensures |r| == |s| && forall i :: 0 <= i < |s| ==> r[i] == s[|s| - 1 - i]
  {
    if s == [] then [] else Reversed(s[1..]) + [s[0]]
  }

  lemma LastStep<E(!new)>(c: Config<E>, entries: seq<E>, k: nat)
    requires k < |entries|
    ensures Last(entries, k + 1) == [entries[|entries| - 1 - k]] + Last(entries, k)
    ensures FileOf(c, Last(entries, k + 1)) == c.Line(entries[|entries| - 1 - k]) + FileOf(c, Last(entries, k))
  {
    assert Last(entries, k + 1)[1..] == Last(entries, k);
  }

  lemma NothingLast<E(!new)>(c: Config<E>, entries: seq<E>)
    ensures FileOf(c, Last(entries, 0)) == []
  {
  }

  class AuditLog<E(!new)> {
    const config: Config<E>
    var file: Bytes
    /** Bytes written by appends, and by trims, so far. */
    ghost var appended: nat
    ghost var rewritten: nat

    constructor (config: Config<E>)
      ensures this.config == config && file == [] && appended == 0 && rewritten == 0
    {
      this.config := config;
      file, appended, rewritten := [], 0, 0;
    }

    method Append(entry: E)
      modifies this
      ensures file == Trimmed(config, old(file) + config.Line(entry))
      ensures appended == old(appended) + |config.Line(entry)|
      ensures rewritten == old(rewritten) + Rewrite(config, old(file) + config.Line(entry))
    {
      file := file + config.Line(entry);
      appended := appended + |config.Line(entry)|;
      TrimIfNeeded();
    }

    /** The lines of the newest entries, newest first, as far as the count and the bytes allow. */
    method NewestLines(entries: seq<E>) returns (lines: seq<Bytes>)
      ensures |lines| == KeepCount(config, entries, 0)
      ensures forall i :: 0 <= i < |lines| ==> lines[i] == config.Line(entries[|entries| - 1 - i])
    {
      hide FileOf;
      lines := [];
      var bytes := 0;
      NothingLast(config, entries);
      while |lines| < |entries| && |lines| < config.retain
        invariant |lines| <= |entries|
        invariant KeepCount(config, entries, |lines|) == KeepCount(config, entries, 0)
        invariant bytes == |FileOf(config, Last(entries, |lines|))|
        invariant forall i :: 0 <= i < |lines| ==> lines[i] == config.Line(entries[|entries| - 1 - i])
        decreases |entries| - |lines|
      {
        var line := config.Line(entries[|entries| - 1 - |lines|]);
        LastStep(config, entries, |lines|);
        if lines != [] && bytes + |line| > config.Budget() {
          break;
        }
        bytes := bytes + |line|;
        lines := lines + [line];
      }
    }

    /** The kept lines in file order. */
    method OldestFirst(entries: seq<E>, lines: seq<Bytes>) returns (buffer: Bytes)
      requires |lines| <= |entries|
      requires forall i :: 0 <= i < |lines| ==> lines[i] == config.Line(entries[|entries| - 1 - i])
      ensures buffer == FileOf(config, Last(entries, |lines|))
    {
      buffer := [];
      for i := 0 to |lines|
        invariant buffer + FileOf(config, Last(entries, |lines| - i)) == FileOf(config, Last(entries, |lines|))
      {
        LastStep(config, entries, |lines| - i - 1);
        buffer := buffer + lines[|lines| - 1 - i];
      }
    }

    method TrimIfNeeded()
      modifies this
      ensures file == Trimmed(config, old(file))
      ensures appended == old(appended)
      ensures rewritten == old(rewritten) + Rewrite(config, old(file))
    {
      if |file| <= config.threshold {
        return;
      }
      var entries := ReadAll(config, file);
      var lines := NewestLines(entries);
      if |lines| >= |entries| {
        return;
      }
      var buffer := OldestFirst(entries, lines);
      file := buffer;
      rewritten := rewritten + |buffer|;
    }

    method Recent(limit: nat) returns (entries: seq<E>)
      ensures var all := ReadAll(config, file);
        entries == Reversed(Last(all, Min(limit, |all|)))
    {
      var all := ReadAll(config, file);
      entries := Reversed(all);
      if limit < |entries| {
        entries := entries[..limit];
      }
    }
  }

  /** Bytes a trim of this file writes. */
  function Rewrite<E(!new)>(c: Config<E>, file: Bytes): nat {
    if |file| <= c.threshold then 0
    else
      var entries := ReadAll(c, file);
      if |Kept(c, entries)| >= |entries| then 0 else |FileOf(c, Kept(c, entries))|
  }
}
