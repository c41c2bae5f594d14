/** Recovery codes (recovery.rs): a 32-byte key as base 32 text and back. */
module RecoveryCode {
  import opened Common
  import opened Bits
  import opened Text

  const KEY_LEN := 32
  const GROUP := 4
  const PREFIX := "BAL1"

  /** RFC 4648 base 32, section 6. */
  function Letter(digit: nat): char
    requires digit < 32
  {
    if digit < 26 then ('A' as int + digit) as char else ('2' as int + digit - 26) as char
  }

  /** The position of a character in the alphabet. */
  function Position(c: char): (r: Option<nat>)
    ensures r.Some? ==> r.value < 32
  {
    if 'A' <= c <= 'Z' then Some(c as int - 'A' as int)
    else if '2' <= c <= '7' then Some(c as int - '2' as int + 26)
    else None
  }

  lemma AlphabetIsABijection(digit: nat, c: char)
    requires digit < 32
    ensures Letter(digit) == c <==> Position(c) == Some(digit)
  {
  }

  // ---- Rendering ----

  /** The code with these digits written so far: a dash before every fourth one. */
  function Written(digits: seq<nat>): string
    requires AllBelow(digits, 32)
  {
    if digits == [] then PREFIX
    else
      var n := |digits| - 1;
      Written(digits[..n]) + (if n % GROUP == 0 then "-" else "") + [Letter(digits[n])]
  }

  /** A key as written down. */
  function Code(key: seq<byte>): string
  {
    WordIsPow2();
    KeyDigits(key);
    Written(Spelled(5, key))
  }

  lemma KeyDigits(key: seq<byte>)
    ensures AllBelow(key, Pow2(8)) && AllBelow(Spelled(5, key), 32)
  {
    WordIsPow2();
    SpellingReadsBack(5, key);
  }

  method Push(code: string, ghost digits: seq<nat>, written: nat, index: nat) returns (code': string, written': nat)
    requires AllBelow(digits, 32) && code == Written(digits) && written == |digits| && index < 32
    ensures AllBelow(digits + [index], 32)
    ensures code' == Written(digits + [index]) && written' == |digits| + 1
  {
    assert (digits + [index])[..|digits|] == digits;
    code' := code;
    if written % GROUP == 0 {
      code' := code' + "-";
    }
    code' := code' + [Letter(index)];
    written' := written + 1;
  }

  method FormatRecoveryCode(key: seq<byte>) returns (code: string)
    requires |key| == KEY_LEN
    ensures code == Code(key)
  {
    hide Written, Groups, Leftover, Value, BitsOf, ToBits, ShiftIn, ShiftRight, ShiftLeft, Pow2, Letter;
    WordIsPow2();
    StartOfCode();
    code := PREFIX;
    var accumulator: u32, bits, written := 0, 0, 0;
    ghost var digits: seq<nat>, pending: BitString := [], [];
    for i := 0 to |key|
      invariant bits == |pending| && bits < 5 && Holds(accumulator, pending)
      invariant AllBelow(digits, 32) && code == Written(digits) && written == |digits|
      invariant digits == Groups(5, BitsOf(8, key[..i])) && pending == Leftover(5, BitsOf(8, key[..i]))
    {
      Absorb(accumulator, pending, 8, key[i]);
      Intake(8, 5, key[..i], key[i]);
      assert key[..i + 1] == key[..i] + [key[i]];
      accumulator := ShiftIn(accumulator, 8, key[i]);
      pending := pending + ToBits(key[i], 8);
      bits := bits + 8;
      while bits >= 5
        invariant bits == |pending| && Holds(accumulator, pending)
        invariant AllBelow(digits, 32) && code == Written(digits) && written == |digits|
        invariant digits + Groups(5, pending) == Groups(5, BitsOf(8, key[..i + 1]))
        invariant Leftover(5, pending) == Leftover(5, BitsOf(8, key[..i + 1]))
      {
        Emit(accumulator, pending, 5);
        Spend(5, pending);
        bits := bits - 5;
        code, written := Push(code, digits, written, ShiftRight(accumulator, bits) % 32);
        assert digits + ([Value(pending[..5])] + Groups(5, pending[5..]))
            == digits + [Value(pending[..5])] + Groups(5, pending[5..]);
        digits := digits + [Value(pending[..5])];
        pending := pending[5..];
      }
      NoGroups(5, pending);
      assert digits + [] == digits;
    }
    assert key[..|key|] == key;
    if bits > 0 {
      Pad(accumulator, pending, 5);
      code, written := Push(code, digits, written, ShiftLeft(accumulator, 5 - bits) % 32);
      digits := digits + [Value(pending + Zeros(5 - bits))];
    } else {
      assert digits + [] == digits;
    }
    assert digits == Spelled(5, key);
  }

  lemma StartOfCode()
    ensures Holds(0, []) && Groups(5, BitsOf(8, [])) == [] && Leftover(5, BitsOf(8, [])) == [] && Written([]) == PREFIX
  {
  }

  // ---- Reading what was typed ----

  predicate IsNoise(c: char) {
    IsWhiteSpace(c) || c == '-' || c == '_'
  }

  function AsciiUpper(c: char): char {
    if 'a' <= c <= 'z' then (c as int - 32) as char else c
  }

  /** What is left of a typed code: no dashes, underscores or spaces, and upper case. */
  function Cleaned(code: string): string {
    if code == [] then []
    else (if IsNoise(code[0]) then [] else [AsciiUpper(code[0])]) + Cleaned(code[1..])
  }

  function Positions(body: string): (r: Option<seq<nat>>)
    ensures r.Some? ==> |r.value| == |body| && AllBelow(r.value, 32)
  {
    if body == [] then Some([])
    else
      var init, last := Positions(body[..|body| - 1]), Position(body[|body| - 1]);
      if init.None? || last.None? then None else Some(init.value + [last.value])
  }

  predicate HasPrefix(cleaned: string) {
    |cleaned| >= 4 && cleaned[..4] == PREFIX
  }

  /** The key a typed code stands for, if it is one. */
  function Parse(code: string): Option<seq<nat>> {
    var cleaned := Cleaned(code);
    if !HasPrefix(cleaned) || |cleaned| != 56 then None
    else
      match Positions(cleaned[4..])
      case None => None
      case Some(digits) => if Value(Excess(5, digits)) != 0 then None else Some(Unspelled(5, digits))
  }

  lemma PositionsSoFar(body: string, i: nat)
    requires i < |body|
    ensures Positions(body[..i + 1])
         == var init, last := Positions(body[..i]), Position(body[i]);
            if init.None? || last.None? then None else Some(init.value + [last.value])
  {
    assert body[..i + 1][..i] == body[..i];
  }

  lemma {:induction false} PositionsFail(body: string, i: nat)
    requires i <= |body| && Positions(body[..i]) == None
    ensures Positions(body) == None
    decreases |body| - i
  {
    if i < |body| {
      PositionsSoFar(body, i);
      PositionsFail(body, i + 1);
    } else {
      assert body[..i] == body;
    }
  }

  method ParseRecoveryCode(code: string) returns (key: Option<seq<nat>>)
    ensures key == Parse(code)
    ensures key.Some? ==> |key.value| == KEY_LEN
  {
    hide Groups, Leftover, Value, BitsOf, ToBits, ShiftIn, ShiftRight, Pow2, Position, Positions, Cleaned;
    var cleaned := Cleaned(code);
    if !HasPrefix(cleaned) {
      return None;
    }
    var body := cleaned[4..];
    if |body| != 52 {
      return None;
    }
    WordIsPow2();
    StartOfBody(body);
    var bytes := new nat[KEY_LEN](_ => 0);
    var accumulator: u32, bits, index := 0, 0, 0;
    ghost var digits: seq<nat>, pending: BitString := [], [];
    for i := 0 to |body|
      invariant |digits| == i && Positions(body[..i]) == Some(digits)
      invariant bits == |pending| && bits < 8 && Holds(accumulator, pending)
      invariant index <= KEY_LEN && 8 * index + bits == 5 * i
      invariant bytes[..index] == Groups(8, BitsOf(5, digits)) && pending == Leftover(8, BitsOf(5, digits))
    {
      PositionsSoFar(body, i);
      var value := Position(body[i]);
      if value.None? {
        PositionsFail(body, i + 1);
        return None;
      }
      Absorb(accumulator, pending, 5, value.value);
      Intake(5, 8, digits, value.value);
      digits := digits + [value.value];
      accumulator := ShiftIn(accumulator, 5, value.value);
      pending := pending + ToBits(value.value, 5);
      bits := bits + 5;
      if bits >= 8 {
        Emit(accumulator, pending, 8);
        Spend(8, pending);
        NoGroups(8, pending[8..]);
        bits := bits - 8;
        bytes[index] := ShiftRight(accumulator, bits) % 0x100;
        index := index + 1;
        assert bytes[..index] == bytes[..index - 1] + [bytes[index - 1]];
        pending := pending[8..];
      } else {
        NoGroups(8, pending);
        assert bytes[..index] + [] == bytes[..index];
      }
    }
    assert body[..|body|] == body;
    if index != KEY_LEN || accumulator % Pow2(bits) != 0 {
      return None;
    }
    assert bytes[..] == bytes[..index];
    key := Some(bytes[..]);
  }

  lemma StartOfBody(body: string)
    ensures Holds(0, []) && Groups(8, BitsOf(5, [])) == [] && Leftover(8, BitsOf(5, [])) == []
    ensures Positions(body[..0]) == Some([])
  {
  }

  // ---- One key, one code ----

  function Letters(digits: seq<nat>): string
    requires AllBelow(digits, 32)
  {
    seq(|digits|, i requires 0 <= i < |digits| => Letter(digits[i]))
  }

  lemma {:induction false} CleanedAppend(a: string, b: string)
    ensures Cleaned(a + b) == Cleaned(a) + Cleaned(b)
  {
    if a == [] {
      assert a + b == b;
    } else {
      assert (a + b)[1..] == a[1..] + b;
      CleanedAppend(a[1..], b);
    }
  }

  lemma CleanedChar(c: char)
    ensures Cleaned([c]) == if IsNoise(c) then [] else [AsciiUpper(c)]
  {
    assert [c][1..] == [];
  }

  lemma PrefixIsClean()
    ensures Cleaned(PREFIX) == PREFIX
  {
    assert PREFIX == ['B'] + (['A'] + (['L'] + ['1']));
    CleanedAppend(['B'], ['A'] + (['L'] + ['1']));
    CleanedAppend(['A'], ['L'] + ['1']);
    CleanedAppend(['L'], ['1']);
    hide Cleaned;
    CleanedChar('B');
    CleanedChar('A');
    CleanedChar('L');
    CleanedChar('1');
  }

  lemma LetterIsClean(digit: nat)
    requires digit < 32
    ensures Cleaned([Letter(digit)]) == [Letter(digit)]
  {
    CleanedChar(Letter(digit));
  }

  lemma DashIsDropped(code: string, n: nat)
    ensures Cleaned(code + (if n % GROUP == 0 then "-" else "")) == Cleaned(code)
  {
    CleanedAppend(code, "-");
    CleanedChar('-');
    assert code + "" == code;
    assert Cleaned(code) + [] == Cleaned(code);
  }

  /** The dashes come out again, and nothing else does. */
  lemma {:induction false} WrittenCleans(digits: seq<nat>)
    requires AllBelow(digits, 32)
    ensures Cleaned(Written(digits)) == PREFIX + Letters(digits)
  {
    hide Cleaned, Letter;
    if digits == [] {
      PrefixIsClean();
      assert PREFIX + Letters([]) == PREFIX;
    } else {
      var n := |digits| - 1;
      var dash := if n % GROUP == 0 then "-" else "";
      WrittenCleans(digits[..n]);
      DashIsDropped(Written(digits[..n]), n);
      CleanedAppend(Written(digits[..n]) + dash, [Letter(digits[n])]);
      LetterIsClean(digits[n]);
      assert Letters(digits) == Letters(digits[..n]) + [Letter(digits[n])];
      assert PREFIX + Letters(digits[..n]) + [Letter(digits[n])] == PREFIX + Letters(digits);
    }
  }

  lemma {:induction false} LettersPosition(digits: seq<nat>, body: string)
    requires AllBelow(digits, 32)
    ensures Positions(body) == Some(digits) <==> body == Letters(digits)
  {
    if body == [] || digits == [] {
    } else {
      var n, m := |digits| - 1, |body| - 1;
      LettersPosition(digits[..n], body[..m]);
      AlphabetIsABijection(digits[n], body[m]);
      assert digits == digits[..n] + [digits[n]] && body == body[..m] + [body[m]];
      assert Letters(digits) == Letters(digits[..n]) + [Letter(digits[n])];
      if Positions(body) == Some(digits) {
        assert Positions(body[..m]).value == digits[..n];
      }
      if body == Letters(digits) {
        assert body[..m] == Letters(digits[..n]);
      }
    }
  }

  lemma KeyHasFiftyTwoDigits(key: seq<nat>)
    requires |key| == KEY_LEN && AllBelow(key, Pow2(8))
    ensures |Spelled(5, key)| == 52
  {
    hide BitsOf, PaddedGroups, Pow2;
    var pad := PaddedBits(5, BitsOf(8, key));
    BitsOfLength(8, key);
    BitsOfLength(5, Spelled(5, key));
  }

  lemma FiftyTwoDigitsAreAKey(digits: seq<nat>)
    requires |digits| == 52
    ensures |Unspelled(5, digits)| == KEY_LEN && |Excess(5, digits)| == 4
  {
    hide BitsOf, Groups, Leftover;
    BitsComeBack(8, BitsOf(5, digits));
    BitsOfLength(5, digits);
    BitsOfLength(8, Unspelled(5, digits));
  }

  /** A typed code is accepted exactly when, noise and case aside, it is the code of the key it
      is read as. So every 32-byte key's code reads back as that key, every accepted text is
      the one canonical code of its key, and everything else is refused. */
  lemma CodesAreCanonical(code: string, key: seq<byte>)
    requires |key| == KEY_LEN
    ensures Parse(code) == Some(key) <==> Cleaned(code) == Cleaned(Code(key))
  {
    hide BitsOf, Groups, Leftover, Value, Positions, Cleaned, Letter, Pow2, Written;
    WordIsPow2();
    KeyDigits(key);
    var digits := Spelled(5, key);
    WrittenCleans(digits);
    KeyHasFiftyTwoDigits(key);
    SpellingReadsBack(5, key);
    ZerosValue(Excess(5, digits));
    var cleaned := Cleaned(code);
    if cleaned == PREFIX + Letters(digits) {
      assert cleaned[..4] == PREFIX && cleaned[4..] == Letters(digits);
      LettersPosition(digits, cleaned[4..]);
    }
    if Parse(code) == Some(key) {
      var typed := Positions(cleaned[4..]).value;
      FiftyTwoDigitsAreAKey(typed);
      ZerosValue(Excess(5, typed));
      CleanDigitsAreSpellings(5, typed);
      LettersPosition(typed, cleaned[4..]);
      assert cleaned == cleaned[..4] + cleaned[4..];
    }
  }

  /** Whatever is accepted is a 32-byte key. */
  lemma ParsedIsAKey(code: string)
    requires Parse(code).Some?
    ensures |Parse(code).value| == KEY_LEN && AllBelow(Parse(code).value, 0x100)
  {
    hide BitsOf, Value, Cleaned, Positions;
    var digits := Positions(Cleaned(code)[4..]).value;
    FiftyTwoDigitsAreAKey(digits);
    GroupsBelow(8, BitsOf(5, digits));
    WordIsPow2();
  }

  // ---- What a typed code may look like ----

  lemma CleanedInside(a: string, c: char, b: string)
    ensures Cleaned(a + [c] + b) == Cleaned(a) + Cleaned([c]) + Cleaned(b)
  {
    CleanedAppend(a + [c], b);
    CleanedAppend(a, [c]);
  }

  /** Dashes, underscores and white space may stand anywhere. */
  lemma ParseSkips(a: string, d: char, b: string)
    requires d == '-' || d == '_' || d in WHITE_SPACE
    ensures Parse(a + [d] + b) == Parse(a + b)
  {
    hide Cleaned, Positions, HasPrefix;
    WhiteSpaceIs(d);
    CleanedInside(a, d, b);
    CleanedChar(d);
    CleanedAppend(a, b);
    assert Cleaned(a) + [] == Cleaned(a);
  }

  /** And every letter may be a small one. */
  lemma ParseFoldsCase(a: string, c: char, b: string)
    requires 'a' <= c <= 'z'
    ensures Parse(a + [c] + b) == Parse(a + [('A' as int + (c as int - 'a' as int)) as char] + b)
  {
    hide Cleaned, Positions, HasPrefix;
    var capital := ('A' as int + (c as int - 'a' as int)) as char;
    CleanedInside(a, c, b);
    CleanedInside(a, capital, b);
    CleanedChar(c);
    CleanedChar(capital);
  }

  lemma {:induction false} PositionsOfEach(body: string, i: nat)
    requires i < |body| && Positions(body).Some?
    ensures Position(body[i]).Some?
  {
    var n := |body| - 1;
    if i < n {
      PositionsOfEach(body[..n], i);
    }
  }

  /** Any other character, wherever it stands, makes the code refused. */
  lemma {:induction false} ForeignIsRefused(a: string, c: char, b: string)
    requires !('a' <= c <= 'z') && !('A' <= c <= 'Z') && !('1' <= c <= '7')
    requires c != '-' && c != '_' && c !in WHITE_SPACE
    ensures Parse(a + [c] + b) == None
  {
    hide Cleaned, Positions;
    WhiteSpaceIs(c);
    CleanedInside(a, c, b);
    CleanedChar(c);
    var cleaned, i := Cleaned(a + [c] + b), |Cleaned(a)|;
    assert cleaned[i] == c;
    if HasPrefix(cleaned) && Positions(cleaned[4..]).Some? {
      assert cleaned[..4] == PREFIX;
      if i >= 4 {
        PositionsOfEach(cleaned[4..], i - 4);
      }
      assert false;
    }
  }

  lemma {:induction false} WrittenLength(digits: seq<nat>)
    requires AllBelow(digits, 32)
    ensures |Written(digits)| == 4 + |digits| + (|digits| + 3) / 4
  {
    if digits != [] {
      WrittenLength(digits[..|digits| - 1]);
    }
  }

  lemma LetterKind(digit: nat)
    requires digit < 32
    ensures 'A' <= Letter(digit) <= 'Z' || '2' <= Letter(digit) <= '7'
  {
  }

  lemma {:induction false} WrittenShape(digits: seq<nat>, k: nat)
    requires AllBelow(digits, 32)
    ensures |Written(digits)| >= 4 && Written(digits)[..4] == "BAL1"
    ensures 4 <= k < |Written(digits)| ==>
      var c := Written(digits)[k]; if k % 5 == 4 then c == '-' else 'A' <= c <= 'Z' || '2' <= c <= '7'
  {
    hide Letter;
    if digits != [] {
      var n := |digits| - 1;
      WrittenShape(digits[..n], k);
      WrittenLength(digits[..n]);
      WrittenLength(digits);
      LetterKind(digits[n]);
    }
  }

  /** A code is BAL1 and then thirteen groups of a dash and four letters of the alphabet. */
  lemma {:induction false} CodeShape(key: seq<byte>, k: nat)
    requires |key| == 32
    ensures |Code(key)| == 69 && Code(key)[..4] == "BAL1"
    ensures 4 <= k < 69 ==>
      var c := Code(key)[k]; if k % 5 == 4 then c == '-' else 'A' <= c <= 'Z' || '2' <= c <= '7'
  {
    hide Written, BitsOf, Groups, Leftover, Pow2, Value;
    WordIsPow2();
    KeyDigits(key);
    KeyHasFiftyTwoDigits(key);
    WrittenLength(Spelled(5, key));
    WrittenShape(Spelled(5, key), k);
  }
}
