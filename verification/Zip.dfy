/** The extension packager's zip writer (package-extension.js), against a reader that starts from
    the end record. Deflating is a parameter; names are the UTF-8 bytes. */
module Zip {
  import opened Common
  import opened Crc32
  import opened Deflate

  datatype Entry = Entry(name: seq<byte>, contents: seq<byte>)

  /** What both headers say about an entry. */
  datatype Facts = Facts(crc: u32, packed: nat, size: nat, nameLength: nat) {
    predicate Fit() {
      packed < 0x1_0000_0000 && size < 0x1_0000_0000 && nameLength < 0x1_0000
    }
  }

  function FactsOf(entry: Entry, deflate: Packer): Facts {
    Facts(Checksum(entry.contents), |deflate(entry.contents)|, |entry.contents|, |entry.name|)
  }

  // ---- The format ----

  const LOCAL: u32 := 0x0403_4b50
  const CENTRAL: u32 := 0x0201_4b50
  const END: u32 := 0x0605_4b50

  function Zero(n: nat): seq<byte> {
    seq(n, i => 0)
  }

  function LocalHeader(facts: Facts): (header: seq<byte>)
    requires facts.Fit()
    ensures |header| == 30
  {
    U32Le(LOCAL) + U16Le(20) + U16Le(0) + U16Le(8) + U16Le(0) + U16Le(0x21)
    + U32Le(facts.crc) + U32Le(facts.packed) + U32Le(facts.size) + U16Le(facts.nameLength) + U16Le(0)
  }

  function CentralHeader(facts: Facts, offset: u32): (header: seq<byte>)
    requires facts.Fit()
    ensures |header| == 46
  {
    U32Le(CENTRAL) + U16Le(20) + U16Le(20) + U16Le(0) + U16Le(8) + U16Le(0) + U16Le(0x21)
    + U32Le(facts.crc) + U32Le(facts.packed) + U32Le(facts.size) + U16Le(facts.nameLength)
    + Zero(12) + U32Le(offset)
  }

  function EndRecord(count: u16, size: u32, offset: u32): (record: seq<byte>)
    ensures |record| == 22
  {
    U32Le(END) + Zero(4) + U16Le(count) + U16Le(count) + U32Le(size) + U32Le(offset) + Zero(2)
  }

  /** An entry's part of the file: local header, name, packed contents. */
  function LocalSize(entry: Entry, deflate: Packer): nat {
    30 + |entry.name| + |deflate(entry.contents)|
  }

  function BodiesSize(entries: seq<Entry>, deflate: Packer): nat {
    if entries == [] then 0 else LocalSize(entries[0], deflate) + BodiesSize(entries[1..], deflate)
  }

  function DirectorySize(entries: seq<Entry>): nat {
    if entries == [] then 0 else 46 + |entries[0].name| + DirectorySize(entries[1..])
  }

  ghost predicate FactsFit(entries: seq<Entry>, deflate: Packer) {
    forall i :: 0 <= i < |entries| ==> FactsOf(entries[i], deflate).Fit()
  }

  function Bodies(entries: seq<Entry>, deflate: Packer): (file: seq<byte>)
    requires FactsFit(entries, deflate)
    ensures |file| == BodiesSize(entries, deflate)
  {
    if entries == [] then []
    else
      LocalHeader(FactsOf(entries[0], deflate)) + entries[0].name + deflate(entries[0].contents)
      + Bodies(entries[1..], deflate)
  }

  /** The central directory, of entries whose parts start at `offset`. */
  function Directory(entries: seq<Entry>, offset: nat, deflate: Packer): (file: seq<byte>)
    requires FactsFit(entries, deflate) && offset + BodiesSize(entries, deflate) < 0x1_0000_0000
    ensures |file| == DirectorySize(entries)
  {
    if entries == [] then []
    else
      CentralHeader(FactsOf(entries[0], deflate), offset) + entries[0].name
      + Directory(entries[1..], offset + LocalSize(entries[0], deflate), deflate)
  }

  /** Every number the writer puts into a field is within the field's width. */
  ghost predicate Fits(entries: seq<Entry>, deflate: Packer) {
    && FactsFit(entries, deflate)
    && |entries| < 0x1_0000
    && DirectorySize(entries) < 0x1_0000_0000
    && BodiesSize(entries, deflate) < 0x1_0000_0000
  }

  function Archive(entries: seq<Entry>, deflate: Packer): seq<byte>
    requires Fits(entries, deflate)
  {
    var bodies, directory := Bodies(entries, deflate), Directory(entries, 0, deflate);
    bodies + directory + EndRecord(|entries|, |directory|, |bodies|)
  }

  // ---- The writer ----

  /** A buffer that holds `done` and zeros after it. */
  ghost predicate Filled(buffer: seq<byte>, done: seq<byte>) {
    |done| <= |buffer| && buffer == done + Zero(|buffer| - |done|)
  }

  function UpTo(done: seq<byte>, at: nat): seq<byte>
    requires |done| <= at
  {
    if |done| == at then done else done + Zero(at - |done|)
  }

  /** Writing the next field of a buffer, possibly after a gap. */
  method Put(buffer: array<byte>, ghost done: seq<byte>, at: nat, bytes: seq<byte>)
    requires Filled(buffer[..], done) && |done| <= at && at + |bytes| <= buffer.Length
    modifies buffer
    ensures Filled(buffer[..], UpTo(done, at) + bytes)
  {
    ghost var before := buffer[..];
    for i := 0 to |bytes|
      invariant buffer[..at] == before[..at] && buffer[at..at + i] == bytes[..i]
      invariant buffer[at + i..] == before[at + i..]
    {
      ghost var rest := buffer[at + i..];
      buffer[at + i] := bytes[i];
      assert buffer[at..at + i + 1] == buffer[at..at + i] + [buffer[at + i]];
      assert buffer[at + i + 1..] == rest[1..];
    }
    assert buffer[at..at + |bytes|] == bytes;
    assert buffer[..] == buffer[..at] + buffer[at..at + |bytes|] + buffer[at + |bytes|..];
    assert before[..at] == UpTo(done, at);
  }

  /** `writeUInt32LE`: throws when the value does not fit. */
  method WriteUInt32LE(buffer: array<byte>, ghost done: seq<byte>, value: nat, at: nat)
    returns (fits: bool, ghost done': seq<byte>)
    requires Filled(buffer[..], done) && |done| <= at && at + 4 <= buffer.Length
    modifies buffer
    ensures fits <==> value < 0x1_0000_0000
    ensures fits ==> |done'| == at + 4 && Filled(buffer[..], done')
    ensures fits ==> done' == (if |done| == at then done else done + Zero(at - |done|)) + U32Le(value)
  {
    fits, done' := value < 0x1_0000_0000, done;
    if fits {
      Put(buffer, done, at, U32Le(value));
      done' := UpTo(done, at) + U32Le(value);
    }
  }

  method WriteUInt16LE(buffer: array<byte>, ghost done: seq<byte>, value: nat, at: nat)
    returns (fits: bool, ghost done': seq<byte>)
    requires Filled(buffer[..], done) && |done| <= at && at + 2 <= buffer.Length
    modifies buffer
    ensures fits <==> value < 0x1_0000
    ensures fits ==> |done'| == at + 2 && Filled(buffer[..], done')
    ensures fits ==> done' == (if |done| == at then done else done + Zero(at - |done|)) + U16Le(value)
  {
    fits, done' := value < 0x1_0000, done;
    if fits {
      Put(buffer, done, at, U16Le(value));
      done' := UpTo(done, at) + U16Le(value);
    }
  }

  /** `Buffer.alloc` */
  method Alloc(n: nat) returns (buffer: array<byte>)
    ensures fresh(buffer) && buffer.Length == n && Filled(buffer[..], [])
  {
    buffer := new byte[n](_ => 0);
    assert buffer[..] == [] + Zero(n);
  }

  lemma FilledUp(buffer: seq<byte>, done: seq<byte>)
    requires Filled(buffer, done)
    ensures |done| == |buffer| ==> buffer == done
    ensures |done| + 2 == |buffer| ==> buffer == done + Zero(2)
  {
  }

  lemma NothingFirst(bytes: seq<byte>)
    ensures [] + bytes == bytes
  {
  }

  method MakeLocal(facts: Facts) returns (local: array<byte>, fits: bool)
    ensures fresh(local)
    ensures fits <==> facts.Fit()
    ensures fits ==> local[..] == LocalHeader(facts)
  {
    hide U16Le, U32Le, Zero, Filled, UpTo;
    local := Alloc(30);
    ghost var done: seq<byte> := [];
    NothingFirst(U32Le(LOCAL));
    fits, done := WriteUInt32LE(local, done, LOCAL, 0);
    fits, done := WriteUInt16LE(local, done, 20, 4);
    fits, done := WriteUInt16LE(local, done, 0, 6);
    fits, done := WriteUInt16LE(local, done, 8, 8);
    fits, done := WriteUInt16LE(local, done, 0, 10);
    fits, done := WriteUInt16LE(local, done, 0x21, 12);
    fits, done := WriteUInt32LE(local, done, facts.crc, 14);
    fits, done := WriteUInt32LE(local, done, facts.packed, 18);
    if !fits {
      return;
    }
    fits, done := WriteUInt32LE(local, done, facts.size, 22);
    if !fits {
      return;
    }
    fits, done := WriteUInt16LE(local, done, facts.nameLength, 26);
    if !fits {
      return;
    }
    fits, done := WriteUInt16LE(local, done, 0, 28);
    FilledUp(local[..], done);
  }

  method MakeCentral(facts: Facts, offset: nat) returns (header: array<byte>, fits: bool)
    ensures fresh(header)
    ensures fits <==> facts.Fit() && offset < 0x1_0000_0000
    ensures fits ==> header[..] == CentralHeader(facts, offset)
  {
    hide U16Le, U32Le, Zero, Filled, UpTo;
    header := Alloc(46);
    ghost var done: seq<byte> := [];
    NothingFirst(U32Le(CENTRAL));
    fits, done := WriteUInt32LE(header, done, CENTRAL, 0);
    fits, done := WriteUInt16LE(header, done, 20, 4);
    fits, done := WriteUInt16LE(header, done, 20, 6);
    fits, done := WriteUInt16LE(header, done, 0, 8);
    fits, done := WriteUInt16LE(header, done, 8, 10);
    fits, done := WriteUInt16LE(header, done, 0, 12);
    fits, done := WriteUInt16LE(header, done, 0x21, 14);
    fits, done := WriteUInt32LE(header, done, facts.crc, 16);
    fits, done := WriteUInt32LE(header, done, facts.packed, 20);
    if !fits {
      return;
    }
    fits, done := WriteUInt32LE(header, done, facts.size, 24);
    if !fits {
      return;
    }
    fits, done := WriteUInt16LE(header, done, facts.nameLength, 28);
    if !fits {
      return;
    }
    fits, done := WriteUInt32LE(header, done, offset, 42);
    if !fits {
      return;
    }
    FilledUp(header[..], done);
  }

  method MakeEnd(count: nat, size: nat, offset: nat) returns (end: array<byte>, fits: bool)
    ensures fresh(end)
    ensures fits <==> count < 0x1_0000 && size < 0x1_0000_0000 && offset < 0x1_0000_0000
    ensures fits ==> end[..] == EndRecord(count, size, offset)
  {
    hide U16Le, U32Le, Zero, Filled, UpTo;
    end := Alloc(22);
    ghost var done: seq<byte> := [];
    NothingFirst(U32Le(END));
    fits, done := WriteUInt32LE(end, done, END, 0);
    fits, done := WriteUInt16LE(end, done, count, 8);
    if !fits {
      return;
    }
    fits, done := WriteUInt16LE(end, done, count, 10);
    fits, done := WriteUInt32LE(end, done, size, 12);
    if !fits {
      return;
    }
    fits, done := WriteUInt32LE(end, done, offset, 16);
    if !fits {
      return;
    }
    FilledUp(end[..], done);
  }

  // The directory and the bodies as the loop builds them, entry after entry.

  lemma {:induction false} BodiesSnoc(entries: seq<Entry>, entry: Entry, deflate: Packer)
    ensures BodiesSize(entries + [entry], deflate) == BodiesSize(entries, deflate) + LocalSize(entry, deflate)
    ensures FactsFit(entries + [entry], deflate) <==> FactsFit(entries, deflate) && FactsOf(entry, deflate).Fit()
    ensures FactsFit(entries + [entry], deflate) ==>
      Bodies(entries + [entry], deflate) == Bodies(entries, deflate)
        + (LocalHeader(FactsOf(entry, deflate)) + entry.name + deflate(entry.contents))
  {
    hide LocalHeader, Checksum;
    var all := entries + [entry];
    assert all[|entries|] == entry;
    if entries == [] {
      assert all == [entry] && all[1..] == [];
    } else {
      assert all[1..] == entries[1..] + [entry];
      BodiesSnoc(entries[1..], entry, deflate);
    }
  }

  lemma {:induction false} DirectorySizeSnoc(entries: seq<Entry>, entry: Entry)
    ensures DirectorySize(entries + [entry]) == DirectorySize(entries) + 46 + |entry.name|
  {
    var all := entries + [entry];
    if entries == [] {
      assert all == [entry] && all[1..] == [];
    } else {
      assert all[1..] == entries[1..] + [entry];
      DirectorySizeSnoc(entries[1..], entry);
    }
  }

  lemma {:induction false} DirectorySnoc(entries: seq<Entry>, entry: Entry, offset: nat, deflate: Packer)
    requires FactsFit(entries + [entry], deflate) && offset + BodiesSize(entries + [entry], deflate) < 0x1_0000_0000
    ensures FactsFit(entries, deflate) && FactsOf(entry, deflate).Fit()
    ensures BodiesSize(entries + [entry], deflate) == BodiesSize(entries, deflate) + LocalSize(entry, deflate)
    ensures Directory(entries + [entry], offset, deflate) == Directory(entries, offset, deflate)
        + (CentralHeader(FactsOf(entry, deflate), offset + BodiesSize(entries, deflate)) + entry.name)
  {
    hide CentralHeader, Checksum, FactsFit, LocalSize, FactsOf, DirectorySize, BodiesSize, Bodies, Directory;
    HeadSize(entries + [entry], deflate);
    HeadSize(entries, deflate);
    var all := entries + [entry];
    BodiesSnoc(entries, entry, deflate);
    if entries == [] {
      assert all == [entry] && all[1..] == [];
      HeadEntry(all, offset, deflate);
    } else {
      assert all[1..] == entries[1..] + [entry];
      TailFits(all, deflate);
      TailFits(entries, deflate);
      HeadEntry(all, offset, deflate);
      HeadEntry(entries, offset, deflate);
      DirectorySnoc(entries[1..], entry, offset + LocalSize(entries[0], deflate), deflate);
    }
  }

  lemma HeadSize(entries: seq<Entry>, deflate: Packer)
    ensures entries != [] ==>
      BodiesSize(entries, deflate) == LocalSize(entries[0], deflate) + BodiesSize(entries[1..], deflate)
    ensures entries == [] ==> BodiesSize(entries, deflate) == 0
  {
    hide LocalSize;
  }

  lemma HeadEntry(entries: seq<Entry>, offset: nat, deflate: Packer)
    requires entries != [] && FactsFit(entries, deflate) && offset + BodiesSize(entries, deflate) < 0x1_0000_0000
    ensures FactsFit(entries[1..], deflate) && FactsOf(entries[0], deflate).Fit()
    ensures offset + LocalSize(entries[0], deflate) + BodiesSize(entries[1..], deflate) < 0x1_0000_0000
    ensures Directory(entries, offset, deflate) ==
      CentralHeader(FactsOf(entries[0], deflate), offset) + entries[0].name
      + Directory(entries[1..], offset + LocalSize(entries[0], deflate), deflate)
    ensures Directory([], offset, deflate) == []
  {
    hide CentralHeader, FactsOf, LocalSize;
  }

  lemma TailFits(entries: seq<Entry>, deflate: Packer)
    requires entries != [] && FactsFit(entries, deflate)
    ensures FactsFit(entries[1..], deflate) && FactsOf(entries[0], deflate).Fit()
  {
    hide FactsOf;
  }

  /** The sizes only grow, so a part that does not fit makes the whole not fit. */
  lemma {:induction false} PrefixesAreSmaller(entries: seq<Entry>, i: nat, deflate: Packer)
    requires i <= |entries|
    ensures BodiesSize(entries[..i], deflate) <= BodiesSize(entries, deflate)
    decreases |entries| - i
  {
    if i == |entries| {
      assert entries[..i] == entries;
    } else {
      assert entries[..i + 1] == entries[..i] + [entries[i]];
      BodiesSnoc(entries[..i], entries[i], deflate);
      PrefixesAreSmaller(entries, i + 1, deflate);
    }
  }

  method Write(crcs: PackageCrc, entries: seq<Entry>, deflate: Packer) returns (file: Result<seq<byte>, RangeError>)
    requires crcs.Valid()
    modifies crcs`table
    ensures crcs.Valid()
    ensures file.Ok? <==> Fits(entries, deflate)
    ensures file.Ok? ==> file.value == Archive(entries, deflate)
  {
    hide LocalHeader, CentralHeader, EndRecord, Checksum, Crc, AsNumber;
    hide Bodies, Directory, BodiesSize, DirectorySize, LocalSize;
    var chunks: seq<seq<byte>>, central: seq<seq<byte>>, offset := [], [], 0;
    Nothing(deflate);
    for i := 0 to |entries|
      invariant crcs.Valid() && (crcs.table == old(crcs.table) || fresh(crcs.table))
      invariant FactsFit(entries[..i], deflate)
      invariant i > 0 ==> BodiesSize(entries[..i - 1], deflate) < 0x1_0000_0000
      invariant offset == BodiesSize(entries[..i], deflate) && Concat(chunks) == Bodies(entries[..i], deflate)
      invariant |Concat(central)| == DirectorySize(entries[..i])
      invariant offset < 0x1_0000_0000 ==> Concat(central) == Directory(entries[..i], 0, deflate)
    {
      var entry := entries[i];
      var deflated := deflate(entry.contents);
      var crc := crcs.Crc32(entry.contents);
      ChecksumIsCrc(entry.contents);
      var facts := Facts(AsNumber(crc), |deflated|, |entry.contents|, |entry.name|);
      var local, fits := MakeLocal(facts);
      if !fits {
        return Err(RangeError);
      }
      var header;
      header, fits := MakeCentral(facts, offset);
      if !fits {
        PrefixesAreSmaller(entries, i, deflate);
        return Err(RangeError);
      }
      assert entries[..i + 1] == entries[..i] + [entry];
      BodiesSnoc(entries[..i], entry, deflate);
      DirectorySizeSnoc(entries[..i], entry);
      if offset + LocalSize(entry, deflate) < 0x1_0000_0000 {
        DirectorySnoc(entries[..i], entry, 0, deflate);
      }
      ThreeMore(chunks, local[..], entry.name, deflated);
      ConcatSnoc(central, header[..] + entry.name);
      chunks := chunks + [local[..], entry.name, deflated];
      central := central + [header[..] + entry.name];
      offset := offset + local.Length + |entry.name| + |deflated|;
    }
    assert entries[..|entries|] == entries;
    var directory := Concat(central);
    var end, fits := MakeEnd(|entries|, |directory|, offset);
    if !fits {
      return Err(RangeError);
    }
    file := Ok(Concat(chunks) + directory + end[..]);
  }

  lemma ChecksumIsCrc(contents: seq<byte>)
    ensures Checksum(contents) == AsNumber(Crc(contents))
  {
  }

  lemma Nothing(deflate: Packer)
    ensures Bodies([], deflate) == [] && Directory([], 0, deflate) == []
    ensures BodiesSize([], deflate) == 0 && DirectorySize([]) == 0
  {
  }

  lemma ThreeMore(chunks: seq<seq<byte>>, a: seq<byte>, b: seq<byte>, c: seq<byte>)
    ensures Concat(chunks + [a, b, c]) == Concat(chunks) + (a + b + c)
  {
    assert chunks + [a, b, c] == chunks + [a] + [b] + [c];
    ConcatSnoc(chunks + [a] + [b], c);
    ConcatSnoc(chunks + [a], b);
    ConcatSnoc(chunks, a);
  }
}
