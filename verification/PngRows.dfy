/** Row filters of the PNG specification (sections 9.2 to 9.4) and the icon maker's loop that
    undoes them (make-icons.js, decodePng), four bytes a pixel. */
module PngRows {
  import opened Common

  const BPP := 4

  function Abs(x: int): nat {
    if x < 0 then -x else x
  }

  function Paeth(left: byte, up: byte, upLeft: byte): byte {
    var estimate := left + up - upLeft;
    var dl, du, dul := Abs(estimate - left), Abs(estimate - up), Abs(estimate - upLeft);
    if dl <= du && dl <= dul then left else if du <= dul then up else upLeft
  }

  /** What a filter predicts for a byte from its neighbours. */
  function Predictor(filter: nat, left: byte, up: byte, upLeft: byte): (p: byte)
    requires filter <= 4
  {
    if filter == 0 then 0
    else if filter == 1 then left
    else if filter == 2 then up
    else if filter == 3 then (left + up) / 2
    else Paeth(left, up, upLeft)
  }

  function At(row: seq<byte>, i: int): byte {
    if 0 <= i < |row| then row[i] else 0
  }

  // ---- Filtering, as the specification says ----

  /** Section 9.2: each byte less its prediction from the unfiltered row and the one above. */
  function Filtered(filter: nat, above: seq<byte>, row: seq<byte>): (line: seq<byte>)
    requires filter <= 4
    ensures |line| == |row|
  {
    seq(|row|, i requires 0 <= i < |row| =>
      (row[i] - Predictor(filter, At(row, i - BPP), At(above, i), At(above, i - BPP))) % 0x100)
  }

  /** The rows of an image, each after its filter's number; the row above the first is zero. */
  function FilteredRows(filters: seq<nat>, above: seq<byte>, rows: seq<seq<byte>>): seq<byte>
    requires |filters| == |rows| && forall i :: 0 <= i < |filters| ==> filters[i] <= 4
  {
    if rows == [] then []
    else [filters[0]] + Filtered(filters[0], above, rows[0]) + FilteredRows(filters[1..], rows[0], rows[1..])
  }

  // ---- Unfiltering, as the tool does it ----

  datatype DecodeError = UnknownFilter | Unsupported | Truncated | NotDeflated

  /** The first `n` bytes of a row restored from its line. Bytes the line lacks are zero: adding
      to `undefined` gives NaN, and `NaN & 0xff` is zero. */
  function Restored(filter: nat, above: seq<byte>, line: seq<byte>, n: nat): (row: seq<byte>)
    requires filter <= 4
    ensures |row| == n
  {
    if n == 0 then []
    else
      var row := Restored(filter, above, line, n - 1);
      row + [NextByte(filter, above, line, row)]
  }

  function NextByte(filter: nat, above: seq<byte>, line: seq<byte>, row: seq<byte>): byte
    requires filter <= 4
  {
    var i := |row|;
    if i >= |line| then 0
    else (line[i] + Predictor(filter, At(row, i - BPP), At(above, i), At(above, i - BPP))) % 0x100
  }

  /** `raw.subarray(from, from + n)`: cut off at the end. */
  function Sub(raw: seq<byte>, from: nat, n: nat): seq<byte> {
    if from >= |raw| then [] else if from + n >= |raw| then raw[from..] else raw[from..from + n]
  }

  predicate Known(raw: seq<byte>, read: nat) {
    read < |raw| && raw[read] <= 4
  }

  /** What the remaining `height` rows restore to. A row without bytes never looks at its
      filter. */
  function Rows(raw: seq<byte>, read: nat, above: seq<byte>, height: nat): Result<seq<byte>, DecodeError>
    decreases height
  {
    var stride := |above|;
    if height == 0 then Ok([])
    else if stride > 0 && !Known(raw, read) then Err(UnknownFilter)
    else
      var row := if stride == 0 then [] else Restored(raw[read], above, Sub(raw, read + 1, stride), stride);
      Prepend(row, Rows(raw, read + 1 + stride, row, height - 1))
  }

  function Prepend(row: seq<byte>, rest: Result<seq<byte>, DecodeError>): Result<seq<byte>, DecodeError> {
    match rest
    case Ok(data) => Ok(row + data)
    case Err(error) => Err(error)
  }

  lemma PrependTwice(a: seq<byte>, b: seq<byte>, rest: Result<seq<byte>, DecodeError>)
    ensures Prepend(a, Prepend(b, rest)) == Prepend(a + b, rest)
  {
    if rest.Ok? {
      assert a + (b + rest.value) == a + b + rest.value;
    }
  }

  function Blank(n: nat): seq<byte> {
    seq(n, i => 0)
  }

  /** `current.copy(data, at)` */
  method Copy(data: array<byte>, at: nat, current: array<byte>)
    requires at + current.Length <= data.Length && data != current
    modifies data
    ensures data[..at] == old(data[..at]) && data[at..at + current.Length] == current[..]
  {
    ghost var before := data[..];
    for i := 0 to current.Length
      invariant data[..at] == before[..at]
      invariant data[at..at + i] == current[..i]
    {
      data[at + i] := current[i];
      assert data[at..at + i + 1] == data[at..at + i] + [data[at + i]];
      assert current[..i + 1] == current[..i] + [current[i]];
    }
    assert current[..current.Length] == current[..];
  }

  /** One row: the switch is inside the loop, so an unknown filter is noticed at the first byte. */
  method Unfilter(filter: Option<byte>, previous: array<byte>, line: seq<byte>)
    returns (current: array<byte>, known: bool)
    ensures fresh(current) && current.Length == previous.Length
    ensures known <==> (previous.Length > 0 ==> filter.Some? && filter.value <= 4)
    ensures known && previous.Length > 0 ==> current[..] == Restored(filter.value, previous[..], line, previous.Length)
  {
    hide Predictor;
    var stride := previous.Length;
    current := new byte[stride](_ => 0);
    for i := 0 to stride
      invariant i > 0 ==> filter.Some? && filter.value <= 4
      invariant i > 0 ==> current[..i] == Restored(filter.value, previous[..], line, i)
    {
      if filter.None? || filter.value > 4 {
        return current, false;
      }
      var left := if i >= BPP then current[i - BPP] else 0;
      var up := previous[i];
      var upLeft := if i >= BPP then previous[i - BPP] else 0;
      var value := if i < |line| then line[i] else 0;
      ghost var row := current[..i];
      assert row == Restored(filter.value, previous[..], line, i);
      assert left == At(row, i - BPP) && up == At(previous[..], i) && upLeft == At(previous[..], i - BPP);
      current[i] := if i < |line| then (value + Predictor(filter.value, left, up, upLeft)) % 0x100 else 0;
      assert current[..i + 1] == row + [current[i]];
    }
    assert current[..stride] == current[..];
    known := true;
  }

  lemma RowsStep(raw: seq<byte>, read: nat, above: seq<byte>, height: nat)
    requires height > 0
    ensures Rows(raw, read, above, height) ==
      if |above| > 0 && !Known(raw, read) then Err(UnknownFilter)
      else
        var row := if |above| == 0 then [] else Restored(raw[read], above, Sub(raw, read + 1, |above|), |above|);
        Prepend(row, Rows(raw, read + 1 + |above|, row, height - 1))
  {
    hide Restored, Sub;
  }

  method UnfilterRows(raw: seq<byte>, stride: nat, height: nat) returns (data: Result<seq<byte>, DecodeError>)
    ensures data == Rows(raw, 0, Blank(stride), height)
  {
    hide Rows, Restored, Sub, Prepend;
    Product(height, stride);
    var pixels := new byte[height * stride](_ => 0);
    var previous := new byte[stride](_ => 0);
    var read := 0;
    assert previous[..] == Blank(stride);
    assert Prepend([], Rows(raw, 0, Blank(stride), height)) == Rows(raw, 0, Blank(stride), height) by {
      PrependNothing(Rows(raw, 0, Blank(stride), height));
    }
    for y := 0 to height
      invariant fresh(pixels) && fresh(previous) && previous != pixels && previous.Length == stride
      invariant y * stride <= pixels.Length == height * stride
      invariant Prepend(pixels[..y * stride], Rows(raw, read, previous[..], height - y))
             == Rows(raw, 0, Blank(stride), height)
    {
      var filter := if read < |raw| then Some(raw[read]) else None;
      RowsStep(raw, read, previous[..], height - y);
      var line := Sub(raw, read + 1, stride);
      var current, known := Unfilter(filter, previous, line);
      if !known {
        PrependError(pixels[..y * stride]);
        return Err(UnknownFilter);
      }
      NextRow(y, height, stride);
      ghost var done := pixels[..y * stride];
      PrependTwice(done, current[..], Rows(raw, read + 1 + stride, current[..], height - y - 1));
      Copy(pixels, y * stride, current);
      assert pixels[..(y + 1) * stride] == done + current[..];
      read := read + 1 + stride;
      previous := current;
    }
    assert pixels[..height * stride] == pixels[..];
    data := Ok(pixels[..]);
    Finished(raw, read, previous[..], pixels[..]);
  }

  lemma Product(a: nat, b: nat)
    ensures a * b >= 0
  {
  }

  lemma NextRow(y: nat, height: nat, stride: nat)
    requires y < height
    ensures (y + 1) * stride == y * stride + stride <= height * stride
  {
    assert (height - y - 1) * stride >= 0;
    assert height * stride == (y + 1) * stride + (height - y - 1) * stride;
  }

  lemma PrependNothing(rest: Result<seq<byte>, DecodeError>)
    ensures Prepend([], rest) == rest
  {
    if rest.Ok? {
      assert [] + rest.value == rest.value;
    }
  }

  lemma PrependError(row: seq<byte>)
    ensures Prepend(row, Err(UnknownFilter)) == Err(UnknownFilter)
  {
  }

  lemma Finished(raw: seq<byte>, read: nat, above: seq<byte>, pixels: seq<byte>)
    ensures Prepend(pixels, Rows(raw, read, above, 0)) == Ok(pixels)
  {
    assert pixels + [] == pixels;
  }

  // ---- The filters, on the bytes themselves ----

  function Distance(a: int, b: int): nat {
    if a >= b then a - b else b - a
  }

  /** Section 9.4: the neighbour nearest to left + up - upLeft; of equally near ones, the left one and
      then the upper one. */
  predicate IsPaeth(left: byte, up: byte, upLeft: byte, p: byte) {
    var estimate := left + up - upLeft;
    && p in {left, up, upLeft}
    && (forall q :: q in {left, up, upLeft} ==> Distance(estimate, p) <= Distance(estimate, q))
    && (Distance(estimate, left) == Distance(estimate, p) ==> p == left)
    && (Distance(estimate, up) == Distance(estimate, p) && p != left ==> p == up)
  }

  lemma PaethIsNearest(left: byte, up: byte, upLeft: byte)
    ensures IsPaeth(left, up, upLeft, Paeth(left, up, upLeft))
  {
  }

  /** What a restored byte is, filter by filter: the line's byte and, by number, nothing, the byte to the
      left, the one above, the mean of the two, or the Paeth neighbour. */
  ghost predicate IsRestored(filter: nat, value: byte, left: byte, up: byte, upLeft: byte, x: byte) {
    match filter
    case 0 => x == value
    case 1 => x == (value + left) % 256
    case 2 => x == (value + up) % 256
    case 3 => x == (value + (left + up) / 2) % 256
    case 4 => exists p: byte :: IsPaeth(left, up, upLeft, p) && x == (value + p) % 256
    case _ => false
  }

  lemma NextByteIs(filter: nat, above: seq<byte>, line: seq<byte>, row: seq<byte>)
    requires filter <= 4 && |row| < |line| && |row| < |above|
    ensures var i := |row|;
      IsRestored(filter, line[i], if i >= 4 then row[i - 4] else 0, above[i], if i >= 4 then above[i - 4] else 0,
                 NextByte(filter, above, line, row))
  {
    hide IsPaeth, Paeth, Distance;
    var i := |row|;
    PaethIsNearest(At(row, i - BPP), At(above, i), At(above, i - BPP));
  }

  /** Every byte of a restored row, from the line, the row itself four bytes before, and the row above. */
  lemma {:induction false} RestoredByteIs(filter: nat, above: seq<byte>, line: seq<byte>, n: nat, i: nat)
    requires filter <= 4 && i < n <= |above|
    ensures var row := Restored(filter, above, line, n);
      if i >= |line| then row[i] == 0
      else IsRestored(filter, line[i], if i >= 4 then row[i - 4] else 0, above[i],
                      if i >= 4 then above[i - 4] else 0, row[i])
  {
    hide NextByte, IsRestored;
    if i < n - 1 {
      RestoredByteIs(filter, above, line, n - 1, i);
    } else {
      var row := Restored(filter, above, line, n - 1);
      if i < |line| {
        NextByteIs(filter, above, line, row);
      } else {
        PastTheLine(filter, above, line, row);
      }
    }
  }

  lemma PastTheLine(filter: nat, above: seq<byte>, line: seq<byte>, row: seq<byte>)
    requires filter <= 4 && |row| >= |line|
    ensures NextByte(filter, above, line, row) == 0
  {
  }

  // ---- Unfiltering undoes filtering ----

  lemma {:induction false} RestoresRow(filter: nat, above: seq<byte>, row: seq<byte>, n: nat)
    requires filter <= 4 && n <= |row|
    ensures Restored(filter, above, Filtered(filter, above, row), n) == row[..n]
  {
    hide Predictor;
    if n > 0 {
      RestoresRow(filter, above, row, n - 1);
      var p := Predictor(filter, At(row, n - 1 - BPP), At(above, n - 1), At(above, n - 1 - BPP));
      assert At(row[..n - 1], n - 1 - BPP) == At(row, n - 1 - BPP);
      BackAgain(row[n - 1], p);
    }
  }

  lemma BackAgain(x: byte, p: byte)
    ensures ((x - p) % 0x100 + p) % 0x100 == x
  {
  }

  lemma {:induction false} RestoresRows(filters: seq<nat>, above: seq<byte>, rows: seq<seq<byte>>, before: seq<byte>)
    requires |filters| == |rows| && forall i :: 0 <= i < |filters| ==> filters[i] <= 4
    requires forall i :: 0 <= i < |rows| ==> |rows[i]| == |above|
    ensures Rows(before + FilteredRows(filters, above, rows), |before|, above, |rows|) == Ok(Concat(rows))
    decreases |rows|
  {
    hide Restored, Filtered, Sub, Rows;
    var raw := before + FilteredRows(filters, above, rows);
    if rows != [] {
      var line := Filtered(filters[0], above, rows[0]);
      var rest := FilteredRows(filters[1..], rows[0], rows[1..]);
      var next := before + ([filters[0]] + line);
      assert raw == next + rest;
      assert raw[|before|] == filters[0];
      SubFinds(before + [filters[0]], line, rest);
      assert before + [filters[0]] + line + rest == raw;
      RowsStep(raw, |before|, above, |rows|);
      RestoresRow(filters[0], above, rows[0], |above|);
      assert rows[0][..|above|] == rows[0];
      RestoresRows(filters[1..], rows[0], rows[1..], next);
      if rows[0] == [] {
        assert [] + Concat(rows[1..]) == Concat(rows);
      }
    } else {
      NoRows(raw, |before|, above);
    }
  }

  lemma SubFinds(a: seq<byte>, b: seq<byte>, c: seq<byte>)
    ensures Sub(a + b + c, |a|, |b|) == b
  {
    assert (a + b + c)[|a|..|a| + |b|] == b;
  }

  /** Whatever filter each row was given, above the first a row of zeros, the loop recovers the original
      bytes. */
  lemma UnfilterInvertsFilter(filters: seq<nat>, above: seq<byte>, rows: seq<seq<byte>>, stride: nat)
    requires |filters| == |rows| && forall i :: 0 <= i < |filters| ==> filters[i] <= 4
    requires forall i :: 0 <= i < |rows| ==> |rows[i]| == stride
    requires |above| == stride && forall i :: 0 <= i < stride ==> above[i] == 0
    ensures Rows(FilteredRows(filters, above, rows), 0, Blank(stride), |rows|) == Ok(Concat(rows))
  {
    assert above == Blank(stride);
    hide Rows, FilteredRows, Blank;
    RestoresRows(filters, above, rows, []);
    assert [] + FilteredRows(filters, above, rows) == FilteredRows(filters, above, rows);
  }

  /** Where the filter of row `y` stands. */
  function FilterAt(read: nat, stride: nat, y: nat): nat
    decreases y
  {
    if y == 0 then read else FilterAt(read + 1 + stride, stride, y - 1)
  }

  /** The loop fails exactly when there are bytes to restore and some row's filter is missing or
      unknown. */
  lemma {:induction false} FailsOnUnknownFilter(raw: seq<byte>, read: nat, above: seq<byte>, height: nat)
    ensures Rows(raw, read, above, height).Err? <==>
      |above| > 0 && exists y: nat :: y < height && !Known(raw, FilterAt(read, |above|, y))
    decreases height
  {
    hide Restored, Sub, Known, Rows;
    if height > 0 {
      RowsStep(raw, read, above, height);
      var stride := |above|;
      var next := read + 1 + stride;
      if stride == 0 {
        FailsOnUnknownFilter(raw, next, [], height - 1);
      } else if Known(raw, read) {
        KnownIsFilter(raw, read);
        var row := Restored(raw[read], above, Sub(raw, read + 1, stride), stride);
        FailsOnUnknownFilter(raw, next, row, height - 1);
        var rest := Rows(raw, next, row, height - 1);
        assert Rows(raw, read, above, height) == Prepend(row, rest);
        if rest.Err? {
          var y: nat :| y < height - 1 && !Known(raw, FilterAt(next, |row|, y));
          assert !Known(raw, FilterAt(read, stride, y + 1));
        } else {
          forall y: nat | y < height ensures Known(raw, FilterAt(read, stride, y)) {
            if y > 0 {
              assert Known(raw, FilterAt(next, |row|, y - 1));
            }
          }
        }
      } else {
        assert !Known(raw, FilterAt(read, stride, 0));
      }
    } else {
      NoRows(raw, read, above);
    }
  }

  lemma NoRows(raw: seq<byte>, read: nat, above: seq<byte>)
    ensures Rows(raw, read, above, 0) == Ok([])
  {
  }

  lemma KnownIsFilter(raw: seq<byte>, read: nat)
    requires Known(raw, read)
    ensures read < |raw| && raw[read] <= 4
  {
  }
}
