/** A zip reader that knows only the format: it starts at the end record, walks the central
    directory and follows each offset to the local header. A number with all bits set says that the
    real one is in a ZIP64 record, which this reader does not find where the packager writes none.
    What the packager writes reads back, but for such numbers. */
module ZipReading {
  import opened Common
  import opened Crc32
  import opened Deflate
  import opened Zip

  /** The signatures that a reader looks for. */
  const LOCAL_HEADER := 0x0403_4b50
  const CENTRAL_HEADER := 0x0201_4b50
  const END_OF_DIRECTORY := 0x0605_4b50

  /** The values that stand for a number kept elsewhere. */
  const RESERVED_16 := 0xFFFF
  const RESERVED_32 := 0xFFFF_FFFF

  /** A local header's fields, as a reader finds them. */
  datatype Local = Local(signature: u32, compression: u16, facts: Facts, extra: nat)

  datatype Central = Central(signature: u32, compression: u16, facts: Facts, extra: nat, comment: nat, offset: nat)

  datatype End = End(signature: u32, count: nat, size: nat, offset: nat, comment: nat)

  function ParseLocal(h: seq<byte>): Local
    requires |h| == 30
  {
    Local(ReadU32Le(h[0..4]), ReadU16Le(h[8..10]),
          Facts(ReadU32Le(h[14..18]), ReadU32Le(h[18..22]), ReadU32Le(h[22..26]), ReadU16Le(h[26..28])),
          ReadU16Le(h[28..30]))
  }

  function ParseCentral(h: seq<byte>): Central
    requires |h| == 46
  {
    Central(ReadU32Le(h[0..4]), ReadU16Le(h[10..12]),
            Facts(ReadU32Le(h[16..20]), ReadU32Le(h[20..24]), ReadU32Le(h[24..28]), ReadU16Le(h[28..30])),
            ReadU16Le(h[30..32]), ReadU16Le(h[32..34]), ReadU32Le(h[42..46]))
  }

  function ParseEnd(h: seq<byte>): End
    requires |h| == 22
  {
    End(ReadU32Le(h[0..4]), ReadU16Le(h[10..12]), ReadU32Le(h[12..16]), ReadU32Le(h[16..20]), ReadU16Le(h[20..22]))
  }

  lemma LocalParses(facts: Facts)
    requires facts.Fit()
    ensures ParseLocal(LocalHeader(facts)) == Local(LOCAL_HEADER, 8, facts, 0)
  {
    hide U16Le, U32Le, ReadU16Le, ReadU32Le;
    var h := LocalHeader(facts);
    assert h[0..4] == U32Le(LOCAL);
    assert h[8..10] == U16Le(8);
    assert h[14..18] == U32Le(facts.crc);
    assert h[18..22] == U32Le(facts.packed);
    assert h[22..26] == U32Le(facts.size);
    assert h[26..28] == U16Le(facts.nameLength);
    assert h[28..30] == U16Le(0);
    U32LeReads(LOCAL);
    U16LeReads(8);
    U32LeReads(facts.crc);
    U32LeReads(facts.packed);
    U32LeReads(facts.size);
    U16LeReads(facts.nameLength);
    U16LeReads(0);
  }

  lemma CentralParses(facts: Facts, offset: u32)
    requires facts.Fit()
    ensures ParseCentral(CentralHeader(facts, offset)) == Central(CENTRAL_HEADER, 8, facts, 0, 0, offset)
  {
    hide U16Le, U32Le, ReadU16Le, ReadU32Le;
    var h := CentralHeader(facts, offset);
    assert h[0..4] == U32Le(CENTRAL);
    assert h[10..12] == U16Le(8);
    assert h[16..20] == U32Le(facts.crc);
    assert h[20..24] == U32Le(facts.packed);
    assert h[24..28] == U32Le(facts.size);
    assert h[28..30] == U16Le(facts.nameLength);
    assert h[30..32] == Zero(2);
    assert h[32..34] == Zero(2);
    assert h[42..46] == U32Le(offset);
    U32LeReads(CENTRAL);
    U16LeReads(8);
    U32LeReads(facts.crc);
    U32LeReads(facts.packed);
    U32LeReads(facts.size);
    U16LeReads(facts.nameLength);
    U32LeReads(offset);
    ZeroReads();
  }

  lemma ZeroReads()
    ensures ReadU16Le(Zero(2)) == 0
  {
  }

  lemma EndParses(count: u16, size: u32, offset: u32)
    ensures ParseEnd(EndRecord(count, size, offset)) == End(END_OF_DIRECTORY, count, size, offset, 0)
  {
    hide U16Le, U32Le, ReadU16Le, ReadU32Le;
    var h := EndRecord(count, size, offset);
    assert h[0..4] == U32Le(END);
    assert h[10..12] == U16Le(count);
    assert h[12..16] == U32Le(size);
    assert h[16..20] == U32Le(offset);
    assert h[20] == Zero(2)[0] && h[21] == Zero(2)[1];
    assert h[20..22] == Zero(2);
    U32LeReads(END);
    U16LeReads(count);
    U32LeReads(size);
    U32LeReads(offset);
    ZeroReads();
  }

  // ---- The reader ----

  /** `n` bytes of the file, if it has them. */
  function Slice(file: seq<byte>, at: nat, n: nat): Option<seq<byte>> {
    if at + n <= |file| then Some(file[at..at + n]) else None
  }

  /** The contents behind a local header that says what the directory said. */
  function ReadBody(file: seq<byte>, central: Central, name: seq<byte>, inflate: Unpacker): Option<seq<byte>> {
    match Slice(file, central.offset, 30)
    case None => None
    case Some(h) =>
      var local := ParseLocal(h);
      if local.signature != LOCAL_HEADER || local.compression != 8 || local.facts != central.facts then None
      else if Slice(file, central.offset + 30, |name|) != Some(name) then None
      else
        match Slice(file, central.offset + 30 + |name| + local.extra, local.facts.packed)
        case None => None
        case Some(packed) =>
          match inflate(packed)
          case None => None
          case Some(contents) =>
            if |contents| == local.facts.size && Checksum(contents) == local.facts.crc then Some(contents) else None
  }

  predicate Elsewhere(central: Central) {
    central.facts.packed == RESERVED_32 || central.facts.size == RESERVED_32 || central.offset == RESERVED_32
  }

  /** `count` entries of the directory from `at` on, and where they end. */
  function ReadEntries(file: seq<byte>, at: nat, count: nat, inflate: Unpacker): Option<(seq<Entry>, nat)>
    decreases count
  {
    if count == 0 then Some(([], at))
    else
      match Slice(file, at, 46)
      case None => None
      case Some(h) =>
        var central := ParseCentral(h);
        if central.signature != CENTRAL_HEADER || central.compression != 8 || Elsewhere(central) then None
        else
          match Slice(file, at + 46, central.facts.nameLength)
          case None => None
          case Some(name) =>
            var contents := ReadBody(file, central, name, inflate);
            var next := at + 46 + |name| + central.extra + central.comment;
            var rest := ReadEntries(file, next, count - 1, inflate);
            if contents.None? || rest.None? then None
            else Some(([Entry(name, contents.value)] + rest.value.0, rest.value.1))
  }

  function ReadArchive(file: seq<byte>, inflate: Unpacker): Option<seq<Entry>> {
    if |file| < 22 then None
    else
      var end := ParseEnd(file[|file| - 22..]);
      if end.signature != END_OF_DIRECTORY || end.comment != 0 then None
      else if end.count == RESERVED_16 || end.size == RESERVED_32 || end.offset == RESERVED_32 then None
      else
        match ReadEntries(file, end.offset, end.count, inflate)
        case None => None
        case Some((entries, at)) => if at == end.offset + end.size == |file| - 22 then Some(entries) else None
  }

  // ---- Reading back ----

  ghost predicate Holds(file: seq<byte>, at: nat, part: seq<byte>) {
    at + |part| <= |file| && file[at..at + |part|] == part
  }

  lemma HoldsParts(file: seq<byte>, at: nat, a: seq<byte>, b: seq<byte>)
    requires Holds(file, at, a + b)
    ensures Holds(file, at, a) && Holds(file, at + |a|, b)
  {
    assert (a + b)[..|a|] == a && (a + b)[|a|..] == b;
    assert file[at..at + |a + b|][..|a|] == file[at..at + |a|];
    assert file[at..at + |a + b|][|a|..] == file[at + |a|..at + |a + b|];
  }

  lemma HoldsSlice(file: seq<byte>, at: nat, part: seq<byte>)
    requires Holds(file, at, part)
    ensures Slice(file, at, |part|) == Some(part)
  {
  }

  lemma {:induction false} BodyReads(file: seq<byte>, entry: Entry, offset: u32, inflate: Unpacker, deflate: Packer)
    requires Undoes(inflate, deflate) && FactsOf(entry, deflate).Fit()
    requires Holds(file, offset, LocalHeader(FactsOf(entry, deflate)) + entry.name + deflate(entry.contents))
    ensures ReadBody(file, Central(CENTRAL_HEADER, 8, FactsOf(entry, deflate), 0, 0, offset), entry.name, inflate)
      == Some(entry.contents)
  {
    hide LocalHeader, Checksum, Holds, Slice, ParseLocal;
    var facts := FactsOf(entry, deflate);
    var packed := deflate(entry.contents);
    HoldsParts(file, offset, LocalHeader(facts) + entry.name, packed);
    HoldsParts(file, offset, LocalHeader(facts), entry.name);
    HoldsSlice(file, offset, LocalHeader(facts));
    HoldsSlice(file, offset + 30, entry.name);
    HoldsSlice(file, offset + 30 + |entry.name|, packed);
    LocalParses(facts);
    assert inflate(packed) == Some(entry.contents);
  }

  lemma HeadParts(entries: seq<Entry>, deflate: Packer)
    requires FactsFit(entries, deflate)
    ensures entries == [] ==> DirectorySize(entries) == 0
    ensures entries != [] ==>
      && FactsFit(entries[1..], deflate) && FactsOf(entries[0], deflate).Fit()
      && FactsOf(entries[0], deflate).nameLength == |entries[0].name|
      && LocalSize(entries[0], deflate) == 30 + |entries[0].name| + |deflate(entries[0].contents)|
      && DirectorySize(entries) == 46 + |entries[0].name| + DirectorySize(entries[1..])
      && Bodies(entries, deflate)
         == LocalHeader(FactsOf(entries[0], deflate)) + entries[0].name + deflate(entries[0].contents)
            + Bodies(entries[1..], deflate)
  {
    hide LocalHeader, Checksum;
  }

  predicate SomeHuge(entries: seq<Entry>) {
    exists i :: 0 <= i < |entries| && |entries[i].contents| == RESERVED_32
  }

  lemma SomeHugeStep(entries: seq<Entry>)
    ensures SomeHuge(entries) <==>
      entries != [] && (|entries[0].contents| == RESERVED_32 || SomeHuge(entries[1..]))
  {
    if SomeHuge(entries) {
      var i :| 0 <= i < |entries| && |entries[i].contents| == RESERVED_32;
      if i > 0 {
        assert entries[1..][i - 1] == entries[i];
      }
    }
  }

  /** Of an entry's numbers only the size of its contents can be a reserved one. */
  lemma OnlyContentsAreHuge(entries: seq<Entry>, offset: nat, deflate: Packer)
    requires entries != [] && offset + BodiesSize(entries, deflate) < 0x1_0000_0000
    ensures var facts := FactsOf(entries[0], deflate);
      && facts.packed < RESERVED_32 && offset < RESERVED_32 && facts.size == |entries[0].contents|
  {
    hide Checksum, BodiesSize;
    HeadSize(entries, deflate);
  }

  lemma {:induction false} EntriesRead(file: seq<byte>, at: nat, entries: seq<Entry>, offset: nat,
                                       inflate: Unpacker, deflate: Packer)
    requires Undoes(inflate, deflate)
    requires FactsFit(entries, deflate) && offset + BodiesSize(entries, deflate) < 0x1_0000_0000
    requires Holds(file, at, Directory(entries, offset, deflate))
    requires Holds(file, offset, Bodies(entries, deflate))
    ensures ReadEntries(file, at, |entries|, inflate)
         == if SomeHuge(entries) then None else Some((entries, at + DirectorySize(entries)))
    decreases |entries|
  {
    hide LocalHeader, CentralHeader, Checksum, Holds, Slice, ParseCentral, ReadBody, FactsFit, Undoes, FactsOf;
    hide Bodies, Directory, BodiesSize, DirectorySize, LocalSize, SomeHuge;
    HeadSize(entries, deflate);
    HeadParts(entries, deflate);
    SomeHugeStep(entries);
    if entries != [] {
      HeadEntry(entries, offset, deflate);
      OnlyContentsAreHuge(entries, offset, deflate);
      var entry, rest := entries[0], entries[1..];
      var facts := FactsOf(entry, deflate);
      TailFits(entries, deflate);
      var header := CentralHeader(facts, offset);
      HoldsParts(file, at, header + entry.name, Directory(rest, offset + LocalSize(entry, deflate), deflate));
      HoldsParts(file, at, header, entry.name);
      HoldsSlice(file, at, header);
      HoldsSlice(file, at + 46, entry.name);
      CentralParses(facts, offset);
      var body := LocalHeader(facts) + entry.name + deflate(entry.contents);
      HoldsParts(file, offset, body, Bodies(rest, deflate));
      BodyReads(file, entry, offset, inflate, deflate);
      EntriesRead(file, at + 46 + |entry.name|, rest, offset + LocalSize(entry, deflate), inflate, deflate);
      assert entries == [entry] + rest;
    }
  }

  /** Every number that can be is below the reserved values. */
  ghost predicate Plain(entries: seq<Entry>, deflate: Packer) {
    && |entries| != RESERVED_16 && DirectorySize(entries) != RESERVED_32
    && BodiesSize(entries, deflate) != RESERVED_32 && !SomeHuge(entries)
  }

  /** Whatever the packager writes reads back as the entries it was given, in order: the end
      record is found, every offset lands on the local header of the same name, sizes and
      checksum, and nothing is left over. It does exactly when no number takes a reserved value,
      which the packager does not look at; otherwise it does not read at all. */
  lemma {:induction false} ArchivesReadBack(entries: seq<Entry>, inflate: Unpacker, deflate: Packer)
    requires Undoes(inflate, deflate) && Fits(entries, deflate)
    ensures ReadArchive(Archive(entries, deflate), inflate) == if Plain(entries, deflate) then Some(entries) else None
  {
    hide Undoes, FactsFit, Bodies, Directory, BodiesSize, DirectorySize, EndRecord, ParseEnd, ReadEntries, SomeHuge;
    var bodies, directory := Bodies(entries, deflate), Directory(entries, 0, deflate);
    var end := EndRecord(|entries|, |directory|, |bodies|);
    var file := Archive(entries, deflate);
    assert file[|file| - 22..] == end;
    EndParses(|entries|, |directory|, |bodies|);
    assert file[|bodies|..|bodies| + |directory|] == directory;
    assert file[0..|bodies|] == bodies;
    EntriesRead(file, |bodies|, entries, 0, inflate, deflate);
  }
}
