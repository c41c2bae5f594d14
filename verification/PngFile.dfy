/** The icon maker's PNG files (make-icons.js): chunks, decodePng and encodePng. Deflating and
    inflating are parameters. */
module PngFile {
  import opened Common
  import opened Crc32
  import opened Deflate
  import opened PngRows
  import Text

  datatype Image = Image(width: nat, height: nat, data: seq<byte>) {
    predicate Valid() {
      |data| == height * (width * 4)
    }
  }

  const SIGNATURE: seq<byte> := [0x89, 0x50, 0x4e, 0x47, 0x0d, 0x0a, 0x1a, 0x0a]
  const IHDR: seq<byte> := [0x49, 0x48, 0x44, 0x52]
  const IDAT: seq<byte> := [0x49, 0x44, 0x41, 0x54]
  const IEND: seq<byte> := [0x49, 0x45, 0x4e, 0x44]

  // ---- Writing ----

  /** PNG specification, section 5.3: length, type, data and checksum. */
  function Chunk(kind: seq<byte>, data: seq<byte>): seq<byte>
    requires |data| < 0x1_0000_0000
  {
    U32Be(|data|) + kind + data + U32Be(Checksum(kind + data))
  }

  /** The first `n` pixels from byte `start` on, without alpha when opaque. */
  function Pixels(data: seq<byte>, start: nat, n: nat, opaque_: bool): seq<byte>
    requires start + 4 * n <= |data|
  {
    if n == 0 then []
    else
      var i := start + 4 * (n - 1);
      Pixels(data, start, n - 1, opaque_) + [data[i], data[i + 1], data[i + 2]]
      + (if opaque_ then [] else [data[i + 3]])
  }

  lemma RowBounds(image: Image, y: nat)
    requires image.Valid() && y < image.height
    ensures 0 <= y * (image.width * 4) && y * (image.width * 4) + 4 * image.width <= |image.data|
    ensures (y + 1) * (image.width * 4) == y * (image.width * 4) + image.width * 4
  {
    NextRow(y, image.height, image.width * 4);
    Product(y, image.width * 4);
  }

  /** The first `y` rows as they are deflated, each after filter 0. */
  function Scanned(image: Image, y: nat, opaque_: bool): seq<byte>
    requires image.Valid() && y <= image.height
  {
    if y == 0 then []
    else
      RowBounds(image, y - 1);
      Scanned(image, y - 1, opaque_) + [0] + Pixels(image.data, (y - 1) * (image.width * 4), image.width, opaque_)
  }

  function Header(image: Image, opaque_: bool): seq<byte>
    requires image.width < 0x1_0000_0000 && image.height < 0x1_0000_0000
  {
    U32Be(image.width) + U32Be(image.height) + [8, if opaque_ then 2 else 6, 0, 0, 0]
  }

  /** Every number that is written fits its four bytes. */
  ghost predicate Fits(image: Image, opaque_: bool, deflate: Packer)
    requires image.Valid()
  {
    && image.width < 0x1_0000_0000 && image.height < 0x1_0000_0000
    && |deflate(Scanned(image, image.height, opaque_))| < 0x1_0000_0000
  }

  function Encoded(image: Image, opaque_: bool, deflate: Packer): seq<byte>
    requires image.Valid() && Fits(image, opaque_, deflate)
  {
    SIGNATURE + Chunk(IHDR, Header(image, opaque_)) + Chunk(IDAT, deflate(Scanned(image, image.height, opaque_)))
    + Chunk(IEND, [])
  }

  method MakeChunk(crcs: IconCrc, kind: seq<byte>, data: seq<byte>) returns (chunk: Result<seq<byte>, RangeError>)
    requires crcs.Valid()
    modifies crcs
    ensures crcs.Valid()
    ensures chunk == if |data| < 0x1_0000_0000 then Ok(Chunk(kind, data)) else Err(RangeError)
  {
    hide Crc, AsNumber, U32Be;
    if |data| >= 0x1_0000_0000 {
      return Err(RangeError);
    }
    var crc := crcs.Crc32(kind + data);
    chunk := Ok(U32Be(|data|) + (kind + data) + U32Be(AsNumber(crc)));
    assert U32Be(|data|) + (kind + data) == U32Be(|data|) + kind + data;
  }

  lemma {:induction false} PixelsLength(data: seq<byte>, start: nat, n: nat, opaque_: bool)
    requires start + 4 * n <= |data|
    ensures |Pixels(data, start, n, opaque_)| == (if opaque_ then 3 else 4) * n
  {
    if n > 0 {
      PixelsLength(data, start, n - 1, opaque_);
    }
  }

  lemma {:induction false} ScannedLength(image: Image, y: nat, opaque_: bool)
    requires image.Valid() && y <= image.height
    ensures |Scanned(image, y, opaque_)| == y * (image.width * (if opaque_ then 3 else 4) + 1)
  {
    hide Pixels;
    if y > 0 {
      ScannedLength(image, y - 1, opaque_);
      RowBounds(image, y - 1);
      PixelsLength(image.data, (y - 1) * (image.width * 4), image.width, opaque_);
      OneMoreRow(y - 1, image.width * (if opaque_ then 3 else 4) + 1);
    }
  }

  lemma OneMoreRow(y: nat, line: nat)
    ensures (y + 1) * line == y * line + line
  {
  }

  lemma PixelIndex(y: nat, width: nat, x: nat)
    ensures (y * width + x) * 4 == y * (width * 4) + 4 * x
  {
    assert y * (width * 4) == y * width * 4;
  }

  lemma PixelsStep(data: seq<byte>, start: nat, n: nat, opaque_: bool)
    requires start + 4 * (n + 1) <= |data|
    ensures var i := start + 4 * n;
      Pixels(data, start, n + 1, opaque_)
        == Pixels(data, start, n, opaque_) + [data[i], data[i + 1], data[i + 2]]
           + (if opaque_ then [] else [data[i + 3]])
  {
  }

  method PutPixel(data: seq<byte>, i: nat, opaque_: bool, raw: array<byte>, at: nat) returns (write: nat)
    requires i + 4 <= |data| && at + (if opaque_ then 3 else 4) <= raw.Length
    modifies raw
    ensures write == at + if opaque_ then 3 else 4
    ensures raw[..write]
         == old(raw[..at]) + [data[i], data[i + 1], data[i + 2]] + (if opaque_ then [] else [data[i + 3]])
  {
    write := at;
    raw[write] := data[i];
    raw[write + 1] := data[i + 1];
    raw[write + 2] := data[i + 2];
    write := write + 3;
    if !opaque_ {
      raw[write] := data[i + 3];
      write := write + 1;
    }
  }

  method ScanRow(image: Image, y: nat, opaque_: bool, raw: array<byte>, at: nat) returns (write: nat)
    requires image.Valid() && y < image.height
    requires at + image.width * (if opaque_ then 3 else 4) <= raw.Length
    requires y * (image.width * 4) >= 0 && y * (image.width * 4) + 4 * image.width <= |image.data|
    modifies raw
    ensures write == at + image.width * (if opaque_ then 3 else 4)
    ensures raw[..write] == old(raw[..at]) + Pixels(image.data, y * (image.width * 4), image.width, opaque_)
  {
    hide Pixels;
    var channels := if opaque_ then 3 else 4;
    ghost var start := y * (image.width * 4);
    var data := image.data;
    write := at;
    NoPixels(data, start, opaque_);
    assert raw[..at] == raw[..at] + [];
    for x := 0 to image.width
      invariant write == at + x * channels
      invariant raw[..write] == old(raw[..at]) + Pixels(data, start, x, opaque_)
    {
      OneMoreRow(x, channels);
      RoomLeft(x, image.width, channels);
      PixelIndex(y, image.width, x);
      PixelsStep(data, start, x, opaque_);
      write := PutPixel(data, (y * image.width + x) * 4, opaque_, raw, write);
    }
  }

  lemma NoPixels(data: seq<byte>, start: nat, opaque_: bool)
    requires start <= |data|
    ensures Pixels(data, start, 0, opaque_) == []
  {
  }

  lemma RoomLeft(x: nat, width: nat, channels: nat)
    requires x < width
    ensures x * channels + channels <= width * channels
  {
    NextRow(x, width, channels);
  }

  method Scan(image: Image, opaque_: bool) returns (raw: array<byte>)
    requires image.Valid()
    ensures fresh(raw) && raw[..] == Scanned(image, image.height, opaque_)
  {
    hide Scanned, Pixels;
    var line := image.width * (if opaque_ then 3 else 4) + 1;
    Product(image.height, line);
    raw := new byte[image.height * line](_ => 0);
    var write := 0;
    NothingScanned(image, opaque_);
    for y := 0 to image.height
      invariant write == y * line && raw[..write] == Scanned(image, y, opaque_)
    {
      NextRow(y, image.height, line);
      write := ScanLine(image, y, opaque_, raw, write);
    }
    assert raw[..write] == raw[..];
  }

  method ScanLine(image: Image, y: nat, opaque_: bool, raw: array<byte>, at: nat) returns (write: nat)
    requires image.Valid() && y < image.height
    requires at + image.width * (if opaque_ then 3 else 4) + 1 <= raw.Length
    requires raw[..at] == Scanned(image, y, opaque_)
    modifies raw
    ensures write == at + image.width * (if opaque_ then 3 else 4) + 1
    ensures raw[..write] == Scanned(image, y + 1, opaque_)
  {
    hide Scanned, Pixels;
    ScannedStep(image, y, opaque_);
    ghost var before := raw[..at];
    raw[at] := 0;
    assert raw[..at + 1] == before + [0];
    write := ScanRow(image, y, opaque_, raw, at + 1);
  }

  lemma NothingScanned(image: Image, opaque_: bool)
    requires image.Valid()
    ensures Scanned(image, 0, opaque_) == []
  {
  }

  lemma ScannedStep(image: Image, y: nat, opaque_: bool)
    requires image.Valid() && y < image.height
    ensures 0 <= y * (image.width * 4) && y * (image.width * 4) + 4 * image.width <= |image.data|
    ensures Scanned(image, y + 1, opaque_)
      == Scanned(image, y, opaque_) + [0] + Pixels(image.data, y * (image.width * 4), image.width, opaque_)
  {
    RowBounds(image, y);
  }

  method Encode(crcs: IconCrc, image: Image, opaque_: bool, deflate: Packer)
    returns (file: Result<seq<byte>, RangeError>)
    requires crcs.Valid() && image.Valid()
    modifies crcs
    ensures crcs.Valid()
    ensures file.Ok? <==> Fits(image, opaque_, deflate)
    ensures file.Ok? ==> file.value == Encoded(image, opaque_, deflate)
  {
    hide Chunk, Scanned;
    var raw := Scan(image, opaque_);
    if image.width >= 0x1_0000_0000 || image.height >= 0x1_0000_0000 {
      return Err(RangeError);
    }
    var header := U32Be(image.width) + U32Be(image.height) + [8, if opaque_ then 2 else 6, 0, 0, 0];
    var first := MakeChunk(crcs, IHDR, header);
    var second := MakeChunk(crcs, IDAT, deflate(raw[..]));
    if second.Err? {
      return Err(RangeError);
    }
    var third := MakeChunk(crcs, IEND, []);
    file := Ok(SIGNATURE + first.value + second.value + third.value);
  }

  // ---- Reading ----

  /** Node's `ascii` decoding drops the top bit of each byte. */
  function Ascii(bytes: seq<byte>): seq<byte> {
    seq(|bytes|, i requires 0 <= i < |bytes| => bytes[i] % 0x80)
  }

  /** What the header chunks seen so far say; a byte that a short chunk lacks is None. */
  datatype Seen = Seen(width: nat, height: nat, depth: Option<byte>, colour: Option<byte>, interlace: Option<byte>)

  const NOTHING_SEEN := Seen(0, 0, Some(0), Some(0), Some(0))

  function Get(data: seq<byte>, i: nat): Option<byte> {
    if i < |data| then Some(data[i]) else None
  }

  function ReadHeader(data: seq<byte>): Result<Seen, DecodeError> {
    if |data| < 8 then Err(Truncated)
    else Ok(Seen(ReadU32Be(data[0..4]), ReadU32Be(data[4..8]), Get(data, 8), Get(data, 9), Get(data, 12)))
  }

  /** The walk over the chunks from `offset` on: the last header, and the image data's parts. */
  function Walk(buf: seq<byte>, offset: nat, seen: Seen, idat: seq<seq<byte>>)
    : Result<(Seen, seq<seq<byte>>), DecodeError>
    decreases |buf| - offset
  {
    if offset >= |buf| then Ok((seen, idat))
    else if offset + 4 > |buf| then Err(Truncated)
    else
      var length := ReadU32Be(buf[offset..offset + 4]);
      var kind, data := Ascii(Sub(buf, offset + 4, 4)), Sub(buf, offset + 8, length);
      if kind == IEND then Ok((seen, idat))
      else
        var seen' := if kind == IHDR then ReadHeader(data) else Ok(seen);
        if seen'.Err? then Err(seen'.error)
        else Walk(buf, offset + 12 + length, seen'.value, if kind == IDAT then idat + [data] else idat)
  }

  function Decoded(buf: seq<byte>, inflate: Unpacker): Result<Image, DecodeError> {
    match Walk(buf, 8, NOTHING_SEEN, [])
    case Err(error) => Err(error)
    case Ok((seen, idat)) =>
      if seen.depth != Some(8) || seen.colour != Some(6) || seen.interlace != Some(0) then Err(Unsupported)
      else
        match inflate(Concat(idat))
        case None => Err(NotDeflated)
        case Some(raw) =>
          match Rows(raw, 0, Blank(seen.width * 4), seen.height)
          case Err(error) => Err(error)
          case Ok(data) => Ok(Image(seen.width, seen.height, data))
  }

  method Decode(buf: seq<byte>, inflate: Unpacker) returns (image: Result<Image, DecodeError>)
    ensures image == Decoded(buf, inflate)
  {
    hide Rows, Walk;
    var offset, seen, idat: seq<seq<byte>> := 8, NOTHING_SEEN, [];
    while offset < |buf|
      invariant Walk(buf, offset, seen, idat) == Walk(buf, 8, NOTHING_SEEN, [])
      decreases |buf| - offset
    {
      WalkStep(buf, offset, seen, idat);
      if offset + 4 > |buf| {
        return Err(Truncated);
      }
      var length := ReadU32Be(buf[offset..offset + 4]);
      var kind := Ascii(Sub(buf, offset + 4, 4));
      var data := Sub(buf, offset + 8, length);
      if kind == IHDR {
        var header := ReadHeader(data);
        if header.Err? {
          return Err(header.error);
        }
        seen := header.value;
      } else if kind == IDAT {
        idat := idat + [data];
      } else if kind == IEND {
        break;
      }
      offset := offset + 12 + length;
    }
    WalkStep(buf, offset, seen, idat);
    if seen.depth != Some(8) || seen.colour != Some(6) || seen.interlace != Some(0) {
      return Err(Unsupported);
    }
    var raw := inflate(Concat(idat));
    if raw.None? {
      return Err(NotDeflated);
    }
    var data := UnfilterRows(raw.value, seen.width * 4, seen.height);
    if data.Err? {
      return Err(data.error);
    }
    image := Ok(Image(seen.width, seen.height, data.value));
  }

  lemma WalkStep(buf: seq<byte>, offset: nat, seen: Seen, idat: seq<seq<byte>>)
    ensures Walk(buf, offset, seen, idat) ==
      if offset >= |buf| then Ok((seen, idat))
      else if offset + 4 > |buf| then Err(Truncated)
      else
        var length := ReadU32Be(buf[offset..offset + 4]);
        var kind, data := Ascii(Sub(buf, offset + 4, 4)), Sub(buf, offset + 8, length);
        if kind == IEND then Ok((seen, idat))
        else
          var seen' := if kind == IHDR then ReadHeader(data) else Ok(seen);
          if seen'.Err? then Err(seen'.error)
          else Walk(buf, offset + 12 + length, seen'.value, if kind == IDAT then idat + [data] else idat)
  {
    hide ReadHeader, Sub, Ascii, ReadU32Be;
  }

  // ---- Reading back ----

  lemma SubOf(a: seq<byte>, b: seq<byte>, c: seq<byte>)
    ensures Sub(a + b + c, |a|, |b|) == b
  {
    SubFinds(a, b, c);
  }

  /** A chunk in the middle of a file is found with its length, type and data. */
  lemma ChunkFound(before: seq<byte>, kind: seq<byte>, data: seq<byte>, after: seq<byte>)
    requires |kind| == 4 && |data| < 0x1_0000_0000
    ensures var buf := before + Chunk(kind, data) + after;
      && |buf| >= |before| + 12 + |data|
      && ReadU32Be(buf[|before|..|before| + 4]) == |data|
      && Sub(buf, |before| + 4, 4) == kind && Sub(buf, |before| + 8, |data|) == data
  {
    hide U32Be, ReadU32Be, Checksum, Sub;
    var length, crc := U32Be(|data|), U32Be(Checksum(kind + data));
    var buf := before + Chunk(kind, data) + after;
    assert buf == before + length + (kind + data + crc + after);
    assert buf[|before|..|before| + 4] == length;
    U32BeReads(|data|);
    assert buf == (before + length) + kind + (data + crc + after);
    SubOf(before + length, kind, data + crc + after);
    assert buf == (before + length + kind) + data + (crc + after);
    SubOf(before + length + kind, data, crc + after);
  }

  /** The walk takes one chunk and goes on after it. */
  lemma {:induction false} WalkChunk(before: seq<byte>, kind: seq<byte>, data: seq<byte>, after: seq<byte>,
                                     seen: Seen, idat: seq<seq<byte>>)
    requires kind in {IHDR, IDAT, IEND} && |data| < 0x1_0000_0000
    ensures var buf, next := before + Chunk(kind, data) + after, before + Chunk(kind, data);
      Walk(buf, |before|, seen, idat) ==
        if kind == IEND then Ok((seen, idat))
        else if kind == IDAT then Walk(buf, |next|, seen, idat + [data])
        else if ReadHeader(data).Err? then Err(ReadHeader(data).error)
        else Walk(buf, |next|, ReadHeader(data).value, idat)
  {
    hide Walk, Sub, ReadU32Be, ReadHeader, Chunk;
    var buf := before + Chunk(kind, data) + after;
    ChunkFound(before, kind, data, after);
    ChunkLength(kind, data);
    WalkStep(buf, |before|, seen, idat);
    assert Ascii(kind) == kind;
  }

  lemma ChunkLength(kind: seq<byte>, data: seq<byte>)
    requires |kind| == 4 && |data| < 0x1_0000_0000
    ensures |Chunk(kind, data)| == 12 + |data|
  {
    hide Checksum;
  }

  /** Walking a file of the three chunks collects the header and the data. */
  lemma WalkThree(header: seq<byte>, data: seq<byte>)
    requires |header| < 0x1_0000_0000 && |data| < 0x1_0000_0000
    requires ReadHeader(header).Ok?
    ensures Walk(SIGNATURE + Chunk(IHDR, header) + Chunk(IDAT, data) + Chunk(IEND, []), 8, NOTHING_SEEN, [])
      == Ok((ReadHeader(header).value, [data]))
  {
    hide Walk, Chunk, ReadHeader;
    var first, second, third := Chunk(IHDR, header), Chunk(IDAT, data), Chunk(IEND, []);
    var buf := SIGNATURE + first + second + third;
    assert buf == SIGNATURE + first + (second + third);
    WalkChunk(SIGNATURE, IHDR, header, second + third, NOTHING_SEEN, []);
    WalkChunk(SIGNATURE + first, IDAT, data, third, ReadHeader(header).value, []);
    assert [] + [data] == [data];
    assert buf == SIGNATURE + first + second + third + [];
    WalkChunk(SIGNATURE + first + second, IEND, [], [], ReadHeader(header).value, [data]);
  }

  lemma HeaderReads(image: Image, opaque_: bool)
    requires image.width < 0x1_0000_0000 && image.height < 0x1_0000_0000
    ensures |Header(image, opaque_)| == 13
    ensures ReadHeader(Header(image, opaque_))
      == Ok(Seen(image.width, image.height, Some(8), Some(if opaque_ then 2 else 6), Some(0)))
  {
    hide U32Be, ReadU32Be;
    var h := Header(image, opaque_);
    assert h[0..4] == U32Be(image.width) && h[4..8] == U32Be(image.height);
    U32BeReads(image.width);
    U32BeReads(image.height);
  }

  /** The rows of an image. */
  function ImageRows(image: Image, y: nat): (rows: seq<seq<byte>>)
    requires image.Valid() && y <= image.height
    ensures |rows| == y && forall i :: 0 <= i < y ==> |rows[i]| == image.width * 4
  {
    if y == 0 then []
    else
      RowBounds(image, y - 1);
      var start := (y - 1) * (image.width * 4);
      ImageRows(image, y - 1) + [image.data[start..start + image.width * 4]]
  }

  lemma {:induction false} PixelsAreBytes(data: seq<byte>, start: nat, n: nat)
    requires start + 4 * n <= |data|
    ensures Pixels(data, start, n, false) == data[start..start + 4 * n]
  {
    if n > 0 {
      PixelsAreBytes(data, start, n - 1);
    }
  }

  function Unfiltered(n: nat): (filters: seq<nat>)
    ensures |filters| == n && forall i :: 0 <= i < n ==> filters[i] == 0
  {
    seq(n, i => 0)
  }

  lemma {:induction false} PlainRowsSnoc(above: seq<byte>, rows: seq<seq<byte>>, row: seq<byte>)
    ensures FilteredRows(Unfiltered(|rows| + 1), above, rows + [row])
      == FilteredRows(Unfiltered(|rows|), above, rows) + [0] + row
    decreases |rows|
  {
    var all := rows + [row];
    FilterNothing(above, all[0]);
    hide Filtered;
    assert Unfiltered(|rows| + 1)[1..] == Unfiltered(|rows|);
    if rows == [] {
      assert all[1..] == [];
    } else {
      assert Unfiltered(|rows|)[1..] == Unfiltered(|rows| - 1);
      assert all[1..] == rows[1..] + [row];
      PlainRowsSnoc(rows[0], rows[1..], row);
    }
  }

  lemma FilterNothing(above: seq<byte>, row: seq<byte>)
    ensures Filtered(0, above, row) == row
  {
  }

  /** What is deflated is the image's rows under filter 0, and the rows join to the image. */
  lemma {:induction false} ScannedIsFiltered(image: Image, y: nat)
    requires image.Valid() && y <= image.height
    ensures Scanned(image, y, false) == FilteredRows(Unfiltered(y), Blank(image.width * 4), ImageRows(image, y))
    ensures var end := y * (image.width * 4);
      0 <= end <= |image.data| && Concat(ImageRows(image, y)) == image.data[..end]
  {
    hide FilteredRows, Pixels, Unfiltered, Blank, Concat;
    if y == 0 {
      NoRowsYet(image);
    } else {
      RowBounds(image, y - 1);
      ScannedIsFiltered(image, y - 1);
      var start := (y - 1) * (image.width * 4);
      var row := image.data[start..start + image.width * 4];
      PixelsAreBytes(image.data, start, image.width);
      PlainRowsSnoc(Blank(image.width * 4), ImageRows(image, y - 1), row);
      ConcatSnoc(ImageRows(image, y - 1), row);
      assert image.data[..start] + row == image.data[..start + image.width * 4];
    }
  }

  lemma NoRowsYet(image: Image)
    requires image.Valid()
    ensures Scanned(image, 0, false) == FilteredRows(Unfiltered(0), Blank(image.width * 4), [])
    ensures ImageRows(image, 0) == [] && Concat<byte>([]) == [] && 0 * (image.width * 4) == 0
  {
  }

  /** A file of one header, one part of data and an end. */
  function Plain(header: seq<byte>, data: seq<byte>): seq<byte>
    requires |header| < 0x1_0000_0000 && |data| < 0x1_0000_0000
  {
    SIGNATURE + Chunk(IHDR, header) + Chunk(IDAT, data) + Chunk(IEND, [])
  }

  /** Which header is read, and which is not: one that has not even a size, or is not for eight bits of
      red, green, blue and alpha without interlacing, is refused. */
  ghost predicate Judged(header: seq<byte>, image: Result<Image, DecodeError>) {
    && (image == Err(Truncated) <==> |header| < 8)
    && (image == Err(Unsupported) <==>
          |header| >= 8 && (|header| < 13 || header[8] != 8 || header[9] != 6 || header[12] != 0))
    && (image.Ok? ==>
          && image.value.width < 0x1_0000_0000 && image.value.height < 0x1_0000_0000 && |header| >= 8
          && header[0..4] == U32Be(image.value.width) && header[4..8] == U32Be(image.value.height))
  }

  lemma {:induction false} HeaderDecides(header: seq<byte>, data: seq<byte>, inflate: Unpacker)
    requires |header| < 0x1_0000_0000 && |data| < 0x1_0000_0000
    ensures Judged(header, Decoded(Plain(header, data), inflate))
  {
    hide Walk, Chunk, Rows, ReadU32Be, U32Be, Concat;
    var first, second, third := Chunk(IHDR, header), Chunk(IDAT, data), Chunk(IEND, []);
    if |header| < 8 {
      assert SIGNATURE + first + second + third == SIGNATURE + first + (second + third);
      WalkChunk(SIGNATURE, IHDR, header, second + third, NOTHING_SEEN, []);
    } else {
      WalkThree(header, data);
      OnePart(data);
      U32BeCanonical(header[0..4]);
      U32BeCanonical(header[4..8]);
      if inflate(data).Some? {
        RowsRefuse(inflate(data).value, 0, Blank(ReadU32Be(header[0..4]) * 4), ReadU32Be(header[4..8]));
      }
    }
  }

  lemma {:induction false} RowsRefuse(raw: seq<byte>, read: nat, above: seq<byte>, height: nat)
    ensures Rows(raw, read, above, height).Err? ==> Rows(raw, read, above, height).error == UnknownFilter
    decreases height
  {
    hide Rows, Restored, Sub, Known;
    if height > 0 {
      RowsStep(raw, read, above, height);
      if |above| == 0 || Known(raw, read) {
        if |above| > 0 {
          KnownIsFilter(raw, read);
        }
        var row := if |above| == 0 then [] else Restored(raw[read], above, Sub(raw, read + 1, |above|), |above|);
        RowsRefuse(raw, read + 1 + |above|, row, height - 1);
      }
    } else {
      NoRows(raw, read, above);
    }
  }

  /** A file without a header is refused. */
  lemma {:induction false} NoHeaderIsRefused(data: seq<byte>, inflate: Unpacker)
    requires |data| < 0x1_0000_0000
    ensures Decoded(SIGNATURE + Chunk(IDAT, data) + Chunk(IEND, []), inflate) == Err(Unsupported)
  {
    hide Walk, Chunk, Rows, Concat;
    var first, second := Chunk(IDAT, data), Chunk(IEND, []);
    WalkChunk(SIGNATURE, IDAT, data, second, NOTHING_SEEN, []);
    assert SIGNATURE + first + second == SIGNATURE + first + second + [];
    WalkChunk(SIGNATURE + first, IEND, [], [], NOTHING_SEEN, [] + [data]);
  }

  /** Decoding a non-opaque encoding gives the same image; an opaque one has no alpha channel
      and is refused. */
  lemma {:induction false} EncodedReadsBack(image: Image, opaque_: bool, inflate: Unpacker, deflate: Packer)
    requires image.Valid() && Fits(image, opaque_, deflate) && Undoes(inflate, deflate)
    ensures Decoded(Encoded(image, opaque_, deflate), inflate) == if opaque_ then Err(Unsupported) else Ok(image)
  {
    hide Walk, Chunk, Header, ReadHeader, Scanned, Rows, ImageRows, FilteredRows, Concat;
    var raw := Scanned(image, image.height, opaque_);
    HeaderReads(image, opaque_);
    WalkThree(Header(image, opaque_), deflate(raw));
    OnePart(deflate(raw));
    assert inflate(deflate(raw)) == Some(raw);
    if !opaque_ {
      ScannedIsFiltered(image, image.height);
      assert image.data[..|image.data|] == image.data;
      var stride := image.width * 4;
      UnfilterInvertsFilter(Unfiltered(image.height), Blank(stride), ImageRows(image, image.height), stride);
    }
  }

  lemma OnePart(data: seq<byte>)
    ensures Concat([data]) == data
  {
    assert [data][1..] == [];
  }

  // ---- A reader that checks the chunks ----

  datatype Part = Part(kind: string, data: seq<byte>)

  /** PNG specification, section 5.3: a chunk's type and data, if its checksum is that of both. */
  function ReadPart(buf: seq<byte>, at: nat): Option<Part> {
    if at + 12 > |buf| then None
    else
      var length := ReadU32Be(buf[at..at + 4]);
      if at + 12 + length > |buf| then None
      else
        var kind, data := buf[at + 4..at + 8], buf[at + 8..at + 8 + length];
        if ReadU32Be(buf[at + 8 + length..at + 12 + length]) != Checksum(kind + data) then None
        else Some(Part(Text.AsText(kind), data))
  }

  /** All parts of a file from `at` on, up to its last byte. */
  function ReadParts(buf: seq<byte>, at: nat): Option<seq<Part>>
    decreases |buf| - at
  {
    if at >= |buf| then if at == |buf| then Some([]) else None
    else
      match ReadPart(buf, at)
      case None => None
      case Some(part) =>
        match ReadParts(buf, at + 12 + |part.data|)
        case None => None
        case Some(rest) => Some([part] + rest)
  }

  lemma PartReads(before: seq<byte>, kind: seq<byte>, data: seq<byte>, after: seq<byte>)
    requires |kind| == 4 && |data| < 0x1_0000_0000
    ensures ReadPart(before + Chunk(kind, data) + after, |before|) == Some(Part(Text.AsText(kind), data))
  {
    hide U32Be, ReadU32Be, Checksum;
    var at, length, crc := |before|, U32Be(|data|), U32Be(Checksum(kind + data));
    var buf := before + Chunk(kind, data) + after;
    U32BeReads(|data|);
    U32BeReads(Checksum(kind + data));
    assert buf == before + length + kind + data + crc + after;
    assert buf[at..at + 4] == length;
    assert buf[at + 4..at + 8] == kind && buf[at + 8..at + 8 + |data|] == data;
    assert buf[at + 8 + |data|..at + 12 + |data|] == crc;
  }

  lemma PartsStep(before: seq<byte>, kind: seq<byte>, data: seq<byte>, after: seq<byte>)
    requires |kind| == 4 && |data| < 0x1_0000_0000
    ensures var buf := before + Chunk(kind, data) + after;
      ReadParts(buf, |before|)
      == match ReadParts(buf, |before + Chunk(kind, data)|)
         case None => None
         case Some(rest) => Some([Part(Text.AsText(kind), data)] + rest)
  {
    hide ReadPart, Chunk;
    PartReads(before, kind, data, after);
    ChunkLength(kind, data);
  }

  /** The header's data: the image's size, eight bits a channel, and the colour type. */
  lemma HeaderSays(image: Image, opaque_: bool)
    requires image.width < 0x1_0000_0000 && image.height < 0x1_0000_0000
    ensures var h := Header(image, opaque_);
      && |h| == 13 && ReadU32Be(h[0..4]) == image.width && ReadU32Be(h[4..8]) == image.height
      && h[8] == 8 && h[9] == (if opaque_ then 2 else 6) && h[10] == h[11] == h[12] == 0
  {
    hide U32Be, ReadU32Be;
    var h := Header(image, opaque_);
    assert h[0..4] == U32Be(image.width) && h[4..8] == U32Be(image.height);
    U32BeReads(image.width);
    U32BeReads(image.height);
  }

  /** Behind the signature, a reader that checks every chunk finds the header, the deflated rows and the
      end, and nothing after it. */
  lemma {:induction false} EncodedIsWellFormed(image: Image, opaque_: bool, deflate: Packer)
    requires image.Valid() && Fits(image, opaque_, deflate)
    ensures Encoded(image, opaque_, deflate)[..8] == [0x89] + Bytes("PNG\r\n") + [0x1a] + Bytes("\n")
    ensures var data := deflate(Scanned(image, image.height, opaque_));
      ReadParts(Encoded(image, opaque_, deflate), 8)
      == Some([Part("IHDR", Header(image, opaque_)), Part("IDAT", data), Part("IEND", [])])
  {
    hide Chunk, ReadParts, Scanned, U32Be, Text.AsText;
    var header, data := Header(image, opaque_), deflate(Scanned(image, image.height, opaque_));
    var first, second, third := Chunk(IHDR, header), Chunk(IDAT, data), Chunk(IEND, []);
    var buf := SIGNATURE + first + second + third;
    assert buf == SIGNATURE + first + (second + third);
    PartsStep(SIGNATURE, IHDR, header, second + third);
    PartsStep(SIGNATURE + first, IDAT, data, third);
    assert buf == SIGNATURE + first + second + third + [];
    PartsStep(SIGNATURE + first + second, IEND, [], []);
    NoMoreParts(buf);
    Names();
    var one, two, three := Part("IHDR", header), Part("IDAT", data), Part("IEND", []);
    assert [one] + ([two] + ([three] + [])) == [one, two, three];
    assert buf[..8] == SIGNATURE;
  }

  function Bytes(text: string): seq<byte> {
    seq(|text|, i requires 0 <= i < |text| => text[i] as int % 0x100)
  }

  lemma NoMoreParts(buf: seq<byte>)
    ensures ReadParts(buf, |buf|) == Some([])
  {
  }

  lemma Names()
    ensures Text.AsText(IHDR) == "IHDR" && Text.AsText(IDAT) == "IDAT" && Text.AsText(IEND) == "IEND"
  {
  }
}
