/** Base 64 three ways: the streaming encoder (ssh_policy.rs and the plugin's base64url), the
    encoder that works on chunks of three bytes (api.rs), and the two decoders. */
module Base64 {
  import opened Common
  import opened Bits

  /** RFC 4648 sections 4 and 5: the alphabets differ in their last two characters. */
  datatype Alphabet = Standard | UrlSafe

  function Char(alphabet: Alphabet, digit: nat): char
    requires digit < 64
  {
    if digit < 26 then ('A' as int + digit) as char
    else if digit < 52 then ('a' as int + digit - 26) as char
    else if digit < 62 then ('0' as int + digit - 52) as char
    else if digit == 62 then (if alphabet.Standard? then '+' else '-')
    else if alphabet.Standard? then '/' else '_'
  }

  /** The position of a character in the alphabet. */
  function Digit(alphabet: Alphabet, c: char): (r: Option<nat>)
    ensures r.Some? ==> r.value < 64
  {
    if 'A' <= c <= 'Z' then Some(c as int - 'A' as int)
    else if 'a' <= c <= 'z' then Some(c as int - 'a' as int + 26)
    else if '0' <= c <= '9' then Some(c as int - '0' as int + 52)
    else if c == (if alphabet.Standard? then '+' else '-') then Some(62)
    else if c == (if alphabet.Standard? then '/' else '_') then Some(63)
    else None
  }

  lemma AlphabetIsABijection(alphabet: Alphabet, digit: nat, c: char)
    requires digit < 64
    ensures Char(alphabet, digit) == c <==> Digit(alphabet, c) == Some(digit)
    ensures Char(alphabet, digit) != '='
  {
  }

  function Chars(alphabet: Alphabet, digits: seq<nat>): string
    requires AllBelow(digits, 64)
  {
    seq(|digits|, i requires 0 <= i < |digits| => Char(alphabet, digits[i]))
  }

  function Digits(alphabet: Alphabet, text: string): (r: Option<seq<nat>>)
    ensures r.Some? ==> |r.value| == |text| && AllBelow(r.value, 64)
  {
    if text == [] then Some([])
    else
      var init, last := Digits(alphabet, text[..|text| - 1]), Digit(alphabet, text[|text| - 1]);
      if init.None? || last.None? then None else Some(init.value + [last.value])
  }

  lemma {:induction false} CharsRead(alphabet: Alphabet, digits: seq<nat>, text: string)
    requires AllBelow(digits, 64)
    ensures Digits(alphabet, text) == Some(digits) <==> text == Chars(alphabet, digits)
  {
    hide Char, Digit;
    if text == [] || digits == [] {
    } else {
      var n, m := |digits| - 1, |text| - 1;
      CharsRead(alphabet, digits[..n], text[..m]);
      AlphabetIsABijection(alphabet, digits[n], text[m]);
      assert digits == digits[..n] + [digits[n]] && text == text[..m] + [text[m]];
      assert Chars(alphabet, digits) == Chars(alphabet, digits[..n]) + [Char(alphabet, digits[n])];
      if Digits(alphabet, text) == Some(digits) {
        assert Digits(alphabet, text[..m]).value == digits[..n];
      }
      if text == Chars(alphabet, digits) {
        assert text[..m] == Chars(alphabet, digits[..n]);
      }
    }
  }

  lemma BytesAreDigits(bytes: seq<byte>)
    ensures AllBelow(bytes, Pow2(8)) && AllBelow(Spelled(6, bytes), 64)
  {
    WordIsPow2();
    SpellingReadsBack(6, bytes);
  }

  /** The unpadded text of these bytes. */
  function Text(alphabet: Alphabet, bytes: seq<byte>): string
  {
    BytesAreDigits(bytes);
    Chars(alphabet, Spelled(6, bytes))
  }

  // ---- The streaming encoder ----

  method Push(alphabet: Alphabet, text: string, ghost digits: seq<nat>, digit: nat) returns (text': string)
    requires digit < 64 && AllBelow(digits, 64) && text == Chars(alphabet, digits)
    ensures AllBelow(digits + [digit], 64) && text' == Chars(alphabet, digits + [digit])
  {
    hide Char;
    text' := text + [Char(alphabet, digit)];
  }

  method EncodeUnpadded(alphabet: Alphabet, bytes: seq<byte>) returns (text: string)
    ensures text == Text(alphabet, bytes)
  {
    hide Groups, Leftover, Value, BitsOf, ToBits, ShiftIn, ShiftRight, ShiftLeft, Pow2, Char, Chars;
    WordIsPow2();
    Start(alphabet);
    text := "";
    var accumulator: u32, bits := 0, 0;
    ghost var digits: seq<nat>, pending: BitString := [], [];
    for i := 0 to |bytes|
      invariant bits == |pending| && bits < 6 && Holds(accumulator, pending)
      invariant AllBelow(digits, 64) && text == Chars(alphabet, digits)
      invariant digits == Groups(6, BitsOf(8, bytes[..i])) && pending == Leftover(6, BitsOf(8, bytes[..i]))
    {
      Absorb(accumulator, pending, 8, bytes[i]);
      Intake(8, 6, bytes[..i], bytes[i]);
      assert bytes[..i + 1] == bytes[..i] + [bytes[i]];
      accumulator := ShiftIn(accumulator, 8, bytes[i]);
      pending := pending + ToBits(bytes[i], 8);
      bits := bits + 8;
      while bits >= 6
        invariant bits == |pending| && Holds(accumulator, pending)
        invariant AllBelow(digits, 64) && text == Chars(alphabet, digits)
        invariant digits + Groups(6, pending) == Groups(6, BitsOf(8, bytes[..i + 1]))
        invariant Leftover(6, pending) == Leftover(6, BitsOf(8, bytes[..i + 1]))
      {
        Emit(accumulator, pending, 6);
        Spend(6, pending);
        bits := bits - 6;
        text := Push(alphabet, text, digits, ShiftRight(accumulator, bits) % 64);
        assert digits + ([Value(pending[..6])] + Groups(6, pending[6..]))
            == digits + [Value(pending[..6])] + Groups(6, pending[6..]);
        digits := digits + [Value(pending[..6])];
        pending := pending[6..];
      }
      NoGroups(6, pending);
      assert digits + [] == digits;
    }
    assert bytes[..|bytes|] == bytes;
    if bits > 0 {
      Pad(accumulator, pending, 6);
      text := Push(alphabet, text, digits, ShiftLeft(accumulator, 6 - bits) % 64);
      digits := digits + [Value(pending + Zeros(6 - bits))];
    } else {
      assert digits + [] == digits;
    }
    assert digits == Spelled(6, bytes);
  }

  lemma Start(alphabet: Alphabet)
    ensures Holds(0, []) && Chars(alphabet, []) == "" && Digits(alphabet, []) == Some([])
    ensures Groups(6, BitsOf(8, [])) == [] && Leftover(6, BitsOf(8, [])) == []
    ensures Groups(8, BitsOf(6, [])) == [] && Leftover(8, BitsOf(6, [])) == []
    ensures Spelled(6, []) == [] && Value([]) == 0
  {
  }

  // ---- base64url, read strictly ----

  datatype Refusal = Invalid | NonCanonical

  /** What reading a base64url text gives. */
  function FromBase64Url(text: string): Result<seq<nat>, Refusal> {
    if text == "" || |text| % 4 == 1 then Err(Invalid)
    else
      match Digits(UrlSafe, text)
      case None => Err(Invalid)
      case Some(digits) =>
        if Value(Excess(6, digits)) != 0 then Err(NonCanonical) else Ok(Unspelled(6, digits))
  }

  /** An accumulator cut back to its pending bits is exactly their value, also after one more
      digit is shifted in. */
  lemma AbsorbExactly(value: u32, pending: BitString, digit: nat)
    requires value == Value(pending) && |pending| < 8 && digit < 64
    ensures Pow2(6) == 64 && ShiftIn(value, 6, digit) == Value(pending + ToBits(digit, 6))
    ensures Holds(ShiftIn(value, 6, digit), pending + ToBits(digit, 6))
  {
    hide Value, ToBits, Pow2;
    WordIsPow2();
    ValueBound(pending);
    assert Pow2(8) == Pow2(|pending|) * Pow2(8 - |pending|) by {
      Pow2Add(|pending|, 8 - |pending|);
    }
    MulMonotone(Pow2(|pending|), 1, Pow2(8 - |pending|));
    ValueAppend(pending, ToBits(digit, 6));
    ValueOfBits(digit, 6);
    ValueBound(pending + ToBits(digit, 6));
    Small(value * 64, WORD);
    Small(Value(pending + ToBits(digit, 6)), Pow2(|pending| + 6));
  }

  lemma Small(x: nat, m: nat)
    requires x < m
    ensures x % m == x
  {
  }

  method ParseBase64Url(text: string) returns (output: Result<seq<nat>, Refusal>)
    ensures output == FromBase64Url(text)
  {
    hide Groups, Leftover, Value, BitsOf, ToBits, ShiftIn, ShiftRight, Pow2, Digit, Digits;
    if text == "" || |text| % 4 == 1 {
      return Err(Invalid);
    }
    WordIsPow2();
    Start(UrlSafe);
    var bytes: seq<nat>, value: u32, bits := [], 0, 0;
    ghost var digits: seq<nat>, pending: BitString := [], [];
    for i := 0 to |text|
      invariant |digits| == i && Digits(UrlSafe, text[..i]) == Some(digits)
      invariant bits == |pending| && bits < 8 && value == Value(pending)
      invariant bytes == Groups(8, BitsOf(6, digits)) && pending == Leftover(8, BitsOf(6, digits))
    {
      DigitsSoFar(UrlSafe, text, i);
      var digit := Digit(UrlSafe, text[i]);
      if digit.None? {
        DigitsFail(UrlSafe, text, i + 1);
        return Err(Invalid);
      }
      AbsorbExactly(value, pending, digit.value);
      Intake(6, 8, digits, digit.value);
      digits := digits + [digit.value];
      value := ShiftIn(value, 6, digit.value);
      pending := pending + ToBits(digit.value, 6);
      bits := bits + 6;
      if bits >= 8 {
        Emit(value, pending, 8);
        Spend(8, pending);
        NoGroups(8, pending[8..]);
        bits := bits - 8;
        bytes := bytes + [ShiftRight(value, bits) % 0x100];
        value := value % Pow2(bits);
        pending := pending[8..];
      } else {
        NoGroups(8, pending);
        assert bytes + [] == bytes;
      }
    }
    assert text[..|text|] == text;
    if value != 0 {
      return Err(NonCanonical);
    }
    output := Ok(bytes);
  }

  lemma DigitsSoFar(alphabet: Alphabet, text: string, i: nat)
    requires i < |text|
    ensures Digits(alphabet, text[..i + 1]) ==
      var init, last := Digits(alphabet, text[..i]), Digit(alphabet, text[i]);
      if init.None? || last.None? then None else Some(init.value + [last.value])
  {
    hide Digit;
    assert text[..i + 1][..i] == text[..i];
  }

  lemma {:induction false} DigitsFail(alphabet: Alphabet, text: string, i: nat)
    requires i <= |text| && Digits(alphabet, text[..i]).None?
    ensures Digits(alphabet, text).None?
    decreases |text| - i
  {
    if i == |text| {
      assert text[..i] == text;
    } else {
      DigitsSoFar(alphabet, text, i);
      DigitsFail(alphabet, text, i + 1);
    }
  }

  /** How many bits digits leave over, from their number. */
  lemma ExcessLength(digits: seq<nat>)
    ensures 8 * |Unspelled(6, digits)| + |Excess(6, digits)| == 6 * |digits|
    ensures |Excess(6, digits)| < 6 <==> |digits| % 4 != 1
  {
    hide BitsOf, Groups, Leftover;
    BitsComeBack(8, BitsOf(6, digits));
    BitsOfLength(6, digits);
    BitsOfLength(8, Unspelled(6, digits));
  }

  /** One byte string, one base64url text: a text is read as these bytes exactly when they are
      not empty and it is their encoding. */
  lemma Base64UrlIsCanonical(text: string, bytes: seq<byte>)
    ensures FromBase64Url(text) == Ok(bytes) <==> bytes != [] && text == Text(UrlSafe, bytes)
  {
    hide BitsOf, Groups, Leftover, Value, Digits, Chars, Pow2;
    WordIsPow2();
    BytesAreDigits(bytes);
    var digits := Spelled(6, bytes);
    SpellingReadsBack(6, bytes);
    ExcessLength(digits);
    ZerosValue(Excess(6, digits));
    CharsRead(UrlSafe, digits, text);
    if FromBase64Url(text) == Ok(bytes) {
      var read := Digits(UrlSafe, text).value;
      ExcessLength(read);
      ZerosValue(Excess(6, read));
      CleanDigitsAreSpellings(6, read);
      if bytes == [] {
        Start(UrlSafe);
      }
    }
  }

  /** Whatever is accepted is a nonempty byte string. */
  lemma AcceptedIsBytes(text: string)
    requires FromBase64Url(text).Ok?
    ensures FromBase64Url(text).value != [] && AllBelow(FromBase64Url(text).value, 0x100)
  {
    hide BitsOf, Value, Digits, Groups, Leftover;
    WordIsPow2();
    var digits := Digits(UrlSafe, text).value;
    GroupsBelow(8, BitsOf(6, digits));
    ExcessLength(digits);
  }

  // ---- Chunks of three bytes, padded ----

  /** The padding that fills the last four characters. */
  function Padding(n: nat): string {
    if n % 3 == 0 then "" else if n % 3 == 1 then "==" else "="
  }

  /** A padded group is the group of the padded bits. */
  lemma {:induction false} PaddingBits(w: nat, s: BitString, pad: nat)
    requires w > 0 && pad < w && (|s| + pad) % w == 0
    ensures PaddedGroups(w, s) == Groups(w, s + Zeros(pad)) && Leftover(w, s + Zeros(pad)) == []
    decreases |s|
  {
    hide Value;
    if |s| >= w {
      Reduce(|s| + pad, w);
      PaddingBits(w, s[w..], pad);
      assert (s + Zeros(pad))[..w] == s[..w] && (s + Zeros(pad))[w..] == s[w..] + Zeros(pad);
    } else if s == [] {
      Small(pad, w);
      assert s + Zeros(pad) == [];
    } else {
      var padded := s + Zeros(pad);
      if |padded| < w {
        Small(|padded|, w);
        assert false;
      } else {
        Reduce(|padded|, w);
        Small(|padded| - w, w);
        assert padded[..w] == padded && padded[w..] == [];
      }
    }
  }

  lemma Reduce(n: nat, w: nat)
    requires w > 0 && n >= w && n % w == 0
    ensures (n - w) % w == 0
  {
    DivMod(n, w);
    assert n - w == w * (n / w - 1);
    var q := n / w - 1;
    if q < 0 {
      MulMonotone(w, q, -1);
      assert false;
    }
    UniqueDivision(n - w, w, q, 0);
  }

  /** Whole chunks leave nothing over, so what follows them is spelled on its own. */
  lemma ChunksAreIndependent(done: seq<nat>, rest: seq<nat>)
    requires |done| % 3 == 0
    ensures Spelled(6, done + rest) == Spelled(6, done) + Spelled(6, rest)
  {
    hide BitsOf, Groups, Leftover, Value;
    var bits := BitsOf(8, done);
    BitsOfLength(8, done);
    BitsComeBack(6, bits);
    BitsOfLength(6, Groups(6, bits));
    WholeChunks(|done|, |Groups(6, bits)|, |Leftover(6, bits)|);
    BitsOfAppend(8, done, rest);
    GroupsAppend(6, bits, BitsOf(8, rest));
    assert [] + BitsOf(8, rest) == BitsOf(8, rest);
    assert Groups(6, bits) + [] == Groups(6, bits);
    var left := Leftover(6, BitsOf(8, rest));
    var last := if left == [] then [] else [Value(left + Zeros(6 - |left|))];
    assert Groups(6, bits) + Groups(6, BitsOf(8, rest)) + last == Groups(6, bits) + (Groups(6, BitsOf(8, rest)) + last);
  }

  lemma WholeChunks(n: nat, groups: nat, left: nat)
    requires n % 3 == 0 && 8 * n == 6 * groups + left && left < 6
    ensures left == 0
  {
    var k := n / 3;
    assert n == 3 * k;
    assert left == 6 * (4 * k - groups);
  }

  /** `(b0 << 16) | (b1 << 8) | b2` */
  function Triple(b0: byte, b1: byte, b2: byte): u32 {
    b0 * 0x1_0000 + b1 * 0x100 + b2
  }

  /** The four six-bit digits cut out of a triple. */
  function Quad(triple: u32): (digits: seq<nat>)
    ensures |digits| == 4 && AllBelow(digits, 64)
  {
    [ShiftRight(triple, 18) % 64, ShiftRight(triple, 12) % 64, ShiftRight(triple, 6) % 64, triple % 64]
  }

  lemma TripleHolds(b0: byte, b1: byte, b2: byte)
    ensures |BitsOf(8, [b0, b1, b2])| == 24 && Holds(Triple(b0, b1, b2), BitsOf(8, [b0, b1, b2]))
  {
    hide BitsOf, Value, ToBits, Pow2, ShiftIn;
    WordIsPow2();
    Start(Standard);
    Absorb(0, [], 8, b0);
    Absorb(ShiftIn(0, 8, b0), [] + ToBits(b0, 8), 8, b1);
    Absorb(ShiftIn(ShiftIn(0, 8, b0), 8, b1), [] + ToBits(b0, 8) + ToBits(b1, 8), 8, b2);
    ThreeBytes(b0, b1, b2);
    assert [b0, b1, b2] == [b0] + [b1] + [b2];
    BitsOfAppend(8, [b0] + [b1], [b2]);
    BitsOfAppend(8, [b0], [b1]);
    OneDigit(8, b0);
    OneDigit(8, b1);
    OneDigit(8, b2);
    assert [] + ToBits(b0, 8) == ToBits(b0, 8);
  }

  lemma ThreeBytes(b0: byte, b1: byte, b2: byte)
    ensures Pow2(8) == 0x100 && ShiftIn(ShiftIn(ShiftIn(0, 8, b0), 8, b1), 8, b2) == Triple(b0, b1, b2)
  {
    WordIsPow2();
    ShiftInByte(0, b0);
    ShiftInByte(b0, b1);
    ShiftInByte(b0 * 0x100 + b1, b2);
    hide ShiftIn, Pow2;
    assert ShiftIn(0, 8, b0) == b0;
  }

  lemma ShiftInByte(x: u32, b: byte)
    requires x < 0x100_0000
    ensures Pow2(8) == 0x100 && ShiftIn(x, 8, b) == x * 0x100 + b
  {
    WordIsPow2();
    hide Pow2;
    Small(x * 0x100, WORD);
  }

  lemma QuadIsGroups(b0: byte, b1: byte, b2: byte)
    ensures Groups(6, BitsOf(8, [b0, b1, b2])) == Quad(Triple(b0, b1, b2))
  {
    hide BitsOf, Groups, Leftover, Value, Pow2, ShiftRight, Holds, Triple;
    WordIsPow2();
    var t, s := Triple(b0, b1, b2), BitsOf(8, [b0, b1, b2]);
    TripleHolds(b0, b1, b2);
    Emit(t, s, 6);
    Emit(t, s[6..], 6);
    Emit(t, s[6..][6..], 6);
    Emit(t, s[6..][6..][6..], 6);
    NoShift(t);
    Spend(6, s);
    Spend(6, s[6..]);
    Spend(6, s[6..][6..]);
    Spend(6, s[6..][6..][6..]);
    NoGroups(6, s[6..][6..][6..][6..]);
  }

  lemma NoShift(t: u32)
    ensures ShiftRight(t, 0) == t
  {
  }

  /** A chunk is spelled by the first digits of its zero-filled triple, one more than its bytes. */
  lemma ChunkIsQuad(chunk: seq<byte>, b0: byte, b1: byte, b2: byte)
    requires 1 <= |chunk| <= 3 && chunk == [b0, b1, b2][..|chunk|]
    requires |chunk| < 3 ==> b2 == 0
    requires |chunk| < 2 ==> b1 == 0
    ensures Spelled(6, chunk) == Quad(Triple(b0, b1, b2))[..|chunk| + 1]
  {
    hide BitsOf, Groups, Leftover, Value, Quad, Triple, PaddedGroups;
    var n := |chunk|;
    var s, pad := BitsOf(8, chunk), if n == 1 then 4 else if n == 2 then 2 else 0;
    BitsOfLength(8, chunk);
    PaddingBits(6, s, pad);
    QuadIsGroups(b0, b1, b2);
    var fill := [b0, b1, b2][n..];
    assert [b0, b1, b2] == chunk + fill;
    BitsOfAppend(8, chunk, fill);
    ZeroBytes(fill);
    assert Zeros(8 * |fill|) == Zeros(pad) + Zeros(8 * |fill| - pad);
    assert s + (Zeros(pad) + Zeros(8 * |fill| - pad)) == s + Zeros(pad) + Zeros(8 * |fill| - pad);
    GroupsAppend(6, s + Zeros(pad), Zeros(8 * |fill| - pad));
    GroupsLength(s + Zeros(pad));
    assert Groups(6, s + Zeros(pad)) == Groups(6, BitsOf(8, [b0, b1, b2]))[..n + 1];
  }

  lemma GroupsLength(s: BitString)
    ensures 6 * |Groups(6, s)| + |Leftover(6, s)| == |s|
  {
    hide BitsOf, Groups, Leftover;
    BitsComeBack(6, s);
    BitsOfLength(6, Groups(6, s));
  }

  lemma ZeroBytes(fill: seq<nat>)
    requires |fill| <= 2 && forall b :: b in fill ==> b == 0
    ensures BitsOf(8, fill) == Zeros(8 * |fill|)
  {
    hide ToBits, BitsOf;
    ZeroBits(8);
    OneDigit(8, 0);
    if fill == [] {
      NoBits(8);
    } else if |fill| == 1 {
      assert fill[0] in fill && fill == [0];
    } else {
      assert fill[0] in fill && fill[1] in fill && fill == [0] + [0];
      BitsOfAppend(8, [0], [0]);
      assert Zeros(8) + Zeros(8) == Zeros(16);
    }
  }

  /** The text with its padding. */
  function Padded(bytes: seq<byte>): string {
    Text(Standard, bytes) + Padding(|bytes|)
  }

  lemma CharsAppend(alphabet: Alphabet, a: seq<nat>, b: seq<nat>)
    requires AllBelow(a, 64) && AllBelow(b, 64)
    ensures AllBelow(a + b, 64) && Chars(alphabet, a + b) == Chars(alphabet, a) + Chars(alphabet, b)
  {
    hide Char;
  }

  /** One more chunk after whole ones. */
  lemma NextChunk(done: seq<byte>, chunk: seq<byte>, digits: seq<nat>)
    requires |done| % 3 == 0 && 1 <= |chunk| <= 3 && digits == Spelled(6, chunk) && AllBelow(digits, 64)
    ensures Padded(done + chunk) == Padded(done) + Chars(Standard, digits) + Padding(|chunk|)
  {
    hide Spelled, Chars;
    ChunksAreIndependent(done, chunk);
    BytesAreDigits(done);
    CharsAppend(Standard, Spelled(6, done), digits);
  }

  lemma QuadText(triple: u32, n: nat)
    requires 1 <= n <= 3
    ensures var q := Quad(triple);
      Chars(Standard, q[..n + 1]) + Padding(n) == [Char(Standard, q[0]), Char(Standard, q[1]),
        if n > 1 then Char(Standard, q[2]) else '=', if n > 2 then Char(Standard, q[3]) else '=']
  {
    hide Char, Quad;
  }

  method Serialize(bytes: seq<byte>) returns (out: string)
    ensures out == Padded(bytes)
  {
    hide Spelled, Char, Chars, Text, Triple, ShiftRight, Pow2, Padded, Padding;
    out := "";
    NothingPadded();
    var i := 0;
    while i < |bytes|
      invariant 0 <= i <= |bytes| && (i % 3 == 0 || i == |bytes|)
      invariant out == Padded(bytes[..i])
    {
      var chunk := bytes[i..Min(i + 3, |bytes|)];
      var b0, b1, b2 := chunk[0], if |chunk| > 1 then chunk[1] else 0, if |chunk| > 2 then chunk[2] else 0;
      var triple := Triple(b0, b1, b2);
      ChunkIsQuad(chunk, b0, b1, b2);
      NextChunk(bytes[..i], chunk, Quad(triple)[..|chunk| + 1]);
      assert bytes[..i] + chunk == bytes[..i + |chunk|];
      QuadText(triple, |chunk|);
      ghost var before := out;
      out := out + [Char(Standard, ShiftRight(triple, 18) % 64)];
      out := out + [Char(Standard, ShiftRight(triple, 12) % 64)];
      out := out + [if |chunk| > 1 then Char(Standard, ShiftRight(triple, 6) % 64) else '='];
      out := out + [if |chunk| > 2 then Char(Standard, triple % 64) else '='];
      assert out == before + (Chars(Standard, Quad(triple)[..|chunk| + 1]) + Padding(|chunk|));
      i := i + |chunk|;
    }
    assert bytes[..i] == bytes;
  }

  lemma NothingPadded()
    ensures Padded([]) == ""
  {
    Start(Standard);
  }

  // ---- Reading padded text, leniently ----

  /** The text without its padding characters, wherever they stand. */
  function Unpadded(text: string): string {
    if text == [] then []
    else Unpadded(text[..|text| - 1]) + (if text[|text| - 1] == '=' then [] else [text[|text| - 1]])
  }

  function Deserialized(text: string): Option<seq<nat>> {
    match Digits(Standard, Unpadded(text))
    case None => None
    case Some(digits) => Some(Unspelled(6, digits))
  }

  lemma UnpaddedSoFar(text: string, i: nat)
    requires i < |text|
    ensures Unpadded(text[..i + 1]) == Unpadded(text[..i]) + if text[i] == '=' then [] else [text[i]]
  {
    assert text[..i + 1][..i] == text[..i];
  }

  lemma {:induction false} UnpaddedAppend(a: string, b: string)
    ensures Unpadded(a + b) == Unpadded(a) + Unpadded(b)
  {
    if b == [] {
      assert a + b == a;
    } else {
      var n := |b| - 1;
      assert (a + b)[..|a + b| - 1] == a + b[..n];
      UnpaddedAppend(a, b[..n]);
    }
  }

  lemma {:induction false} DigitsAppendFails(a: string, b: string)
    requires Digits(Standard, a).None?
    ensures Digits(Standard, a + b).None?
  {
    assert (a + b)[..|a|] == a;
    DigitsFail(Standard, a + b, |a|);
  }

  method Deserialize(text: string) returns (out: Option<seq<nat>>)
    ensures out == Deserialized(text)
  {
    hide Groups, Leftover, Value, BitsOf, ToBits, ShiftIn, ShiftRight, Pow2, Digit, Digits, Unpadded;
    WordIsPow2();
    Start(Standard);
    UnpaddedEmpty();
    var bytes: seq<nat>, accumulator: u32, bits := [], 0, 0;
    ghost var digits: seq<nat>, pending: BitString := [], [];
    for i := 0 to |text|
      invariant Digits(Standard, Unpadded(text[..i])) == Some(digits)
      invariant bits == |pending| && bits < 8 && Holds(accumulator, pending)
      invariant bytes == Groups(8, BitsOf(6, digits)) && pending == Leftover(8, BitsOf(6, digits))
    {
      UnpaddedSoFar(text, i);
      if text[i] != '=' {
        DigitsSnoc(Standard, Unpadded(text[..i]), text[i]);
        var index := Digit(Standard, text[i]);
        if index.None? {
          assert text == text[..i + 1] + text[i + 1..];
          UnpaddedAppend(text[..i + 1], text[i + 1..]);
          DigitsAppendFails(Unpadded(text[..i + 1]), Unpadded(text[i + 1..]));
          return None;
        }
        Absorb(accumulator, pending, 6, index.value);
        Intake(6, 8, digits, index.value);
        digits := digits + [index.value];
        accumulator := ShiftIn(accumulator, 6, index.value);
        pending := pending + ToBits(index.value, 6);
        bits := bits + 6;
        if bits >= 8 {
          Emit(accumulator, pending, 8);
          Spend(8, pending);
          NoGroups(8, pending[8..]);
          bits := bits - 8;
          bytes := bytes + [ShiftRight(accumulator, bits) % 0x100];
          pending := pending[8..];
        } else {
          NoGroups(8, pending);
          assert bytes + [] == bytes;
        }
      } else {
        assert Unpadded(text[..i]) + [] == Unpadded(text[..i]);
      }
    }
    assert text[..|text|] == text;
    out := Some(bytes);
  }

  lemma UnpaddedEmpty()
    ensures Unpadded("") == ""
  {
  }

  lemma DigitsSnoc(alphabet: Alphabet, text: string, c: char)
    ensures Digits(alphabet, text + [c]) ==
      var init, last := Digits(alphabet, text), Digit(alphabet, c);
      if init.None? || last.None? then None else Some(init.value + [last.value])
  {
    hide Digit;
    assert (text + [c])[..|text|] == text;
  }

  lemma {:induction false} NothingToDrop(text: string)
    requires '=' !in text
    ensures Unpadded(text) == text
  {
    if text != [] {
      NothingToDrop(text[..|text| - 1]);
    }
  }

  lemma UnpaddedPadding(n: nat)
    ensures Unpadded(Padding(n)) == ""
  {
    assert ['=', '='][..1] == ['='];
    assert ['='][..0] == [];
  }

  lemma TextHasNoPadding(alphabet: Alphabet, bytes: seq<byte>)
    ensures '=' !in Text(alphabet, bytes)
  {
    hide Spelled, Char;
    BytesAreDigits(bytes);
    var digits := Spelled(6, bytes);
    forall i | 0 <= i < |digits| ensures Chars(alphabet, digits)[i] != '=' {
      AlphabetIsABijection(alphabet, digits[i], 'A');
    }
  }

  /** The two encoders agree on every input: without its padding, the chunked text is the
      streaming one. The padding fills the last four characters. */
  lemma EncodersAgree(bytes: seq<byte>)
    ensures Unpadded(Padded(bytes)) == Text(Standard, bytes)
    ensures |Padded(bytes)| % 4 == 0
  {
    hide Text, Padding;
    UnpaddedAppend(Text(Standard, bytes), Padding(|bytes|));
    TextHasNoPadding(Standard, bytes);
    NothingToDrop(Text(Standard, bytes));
    UnpaddedPadding(|bytes|);
    PaddedLength(bytes);
  }

  lemma PaddedLength(bytes: seq<byte>)
    ensures |Padded(bytes)| % 4 == 0
  {
    hide BitsOf, Value, PaddedGroups, Spelled, Unspelled, Excess, Chars, Padding;
    BytesAreDigits(bytes);
    SpellingReadsBack(6, bytes);
    ExcessLength(Spelled(6, bytes));
    SpelledLength(|bytes|, |Excess(6, Spelled(6, bytes))|, |Spelled(6, bytes)|);
    TextLength(bytes);
  }

  lemma TextLength(bytes: seq<byte>)
    ensures |Text(Standard, bytes)| == |Spelled(6, bytes)|
  {
    hide Spelled, Char;
  }

  lemma SpelledLength(n: nat, excess: nat, length: nat)
    requires 8 * n + excess == 6 * length && excess < 6
    ensures (length + |Padding(n)|) % 4 == 0
  {
    var k := n / 3;
    if n % 3 == 0 {
      assert n == 3 * k && length == 4 * k;
    } else if n % 3 == 1 {
      assert n == 3 * k + 1 && length == 4 * k + 2;
    } else {
      assert n == 3 * k + 2 && length == 4 * k + 3;
    }
  }

  /** Every byte string comes back from its padded text. */
  lemma DeserializeInverts(bytes: seq<byte>)
    ensures Deserialized(Padded(bytes)) == Some(bytes)
  {
    hide Padded, Spelled, Chars, Digits, Pow2;
    EncodersAgree(bytes);
    BytesAreDigits(bytes);
    CharsRead(Standard, Spelled(6, bytes), Text(Standard, bytes));
    SpellingReadsBack(6, bytes);
  }

  /** The lenient reader takes texts no encoder writes: a stray character reads as nothing, and so
      does padding on its own. */
  lemma {:induction false} LenientExamples()
    ensures Deserialized("B") == Some([]) && Deserialized("=") == Some([])
    ensures Text(Standard, []) == "" && Padded([]) == ""
  {
    Start(Standard);
    NothingToDrop("B");
    CharsRead(Standard, [1], "B");
    assert "="[..0] == "";
    OneDigit(6, 1);
    hide ToBits, BitsOf;
    NoGroups(8, ToBits(1, 6));
  }

  /** The padding that a text of this many characters needs. */
  function PaddingFor(length: nat): string {
    if length % 4 == 2 then "==" else if length % 4 == 3 then "=" else ""
  }

  lemma PaddingsAgree(n: nat, excess: nat, length: nat)
    requires 8 * n + excess == 6 * length && excess < 6
    ensures Padding(n) == PaddingFor(length)
  {
    SpelledLength(n, excess, length);
  }

  /** An accepted text is the padded encoding of what it reads as exactly when it passes the three
      checks that the lenient reader does not make: its length, padding aside, is not one past a
      multiple of four; the bits it leaves over are zero; and its padding is the one its length
      calls for, all at the end. The first two alone say when it is the unpadded encoding. */
  lemma {:induction false} LenientIsCanonicalIff(text: string, bytes: seq<byte>)
    requires Deserialized(text) == Some(bytes)
    ensures var plain := Unpadded(text);
      var clean := |plain| % 4 != 1 && Value(Excess(6, Digits(Standard, plain).value)) == 0;
      && (text == Padded(bytes) <==> clean && text == plain + PaddingFor(|plain|))
      && (plain == Text(Standard, bytes) <==> clean)
  {
    hide BitsOf, Value, Chars, Digits, Pow2, Groups, Leftover, Unpadded, Spelled, Padding, PaddingFor;
    var plain := Unpadded(text);
    var digits := Digits(Standard, plain).value;
    ExcessLength(digits);
    WordIsPow2();
    BytesAreDigits(bytes);
    SpellingReadsBack(6, bytes);
    CharsRead(Standard, digits, plain);
    CharsRead(Standard, Spelled(6, bytes), plain);
    ZerosValue(Excess(6, digits));
    if |digits| % 4 != 1 && Value(Excess(6, digits)) == 0 {
      CleanDigitsAreSpellings(6, digits);
      PaddingsAgree(|bytes|, |Excess(6, digits)|, |digits|);
    }
    EncodersAgree(bytes);
  }
}
