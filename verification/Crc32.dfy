/** A byte as the machine holds it. */
module Octets {
  import opened Bits

  /** Bit `place` of a number. */
  predicate Set(b: nat, place: nat)
    decreases place
  {
    if place == 0 then b % 2 == 1 else Set(b / 2, place - 1)
  }

  function Flag(on: bool, bit: bv8): bv8 {
    if on then bit else 0
  }

  function Pack(b0: bool, b1: bool, b2: bool, b3: bool, b4: bool, b5: bool, b6: bool, b7: bool): bv8 {
    Flag(b0, 1) | Flag(b1, 2) | Flag(b2, 4) | Flag(b3, 8) | Flag(b4, 16) | Flag(b5, 32) | Flag(b6, 64) | Flag(b7, 128)
  }

  function Octet(b: nat): bv8 {
    Pack(Set(b, 0), Set(b, 1), Set(b, 2), Set(b, 3), Set(b, 4), Set(b, 5), Set(b, 6), Set(b, 7))
  }

  lemma PackTells(a0: bool, a1: bool, a2: bool, a3: bool, a4: bool, a5: bool, a6: bool, a7: bool,
                  b0: bool, b1: bool, b2: bool, b3: bool, b4: bool, b5: bool, b6: bool, b7: bool)
    requires Pack(a0, a1, a2, a3, a4, a5, a6, a7) == Pack(b0, b1, b2, b3, b4, b5, b6, b7)
    ensures a0 == b0 && a1 == b1 && a2 == b2 && a3 == b3 && a4 == b4 && a5 == b5 && a6 == b6 && a7 == b7
  {
  }

  lemma {:induction false} BitsTell(a: nat, b: nat, n: nat)
    requires a < Pow2(n) && b < Pow2(n)
    ensures a != b ==> exists place :: 0 <= place < n && Set(a, place) != Set(b, place)
    decreases n
  {
    if n > 0 && a != b {
      if a / 2 == b / 2 {
        assert Set(a, 0) != Set(b, 0);
      } else {
        BitsTell(a / 2, b / 2, n - 1);
        var place :| 0 <= place < n - 1 && Set(a / 2, place) != Set(b / 2, place);
        assert Set(a, place + 1) != Set(b, place + 1);
      }
    }
  }

  lemma OctetTells(a: nat, b: nat)
    requires a < 0x100 && b < 0x100 && Octet(a) == Octet(b)
    ensures a == b
  {
    hide Pack, Set;
    WordIsPow2();
    BitsTell(a, b, 8);
    PackTells(Set(a, 0), Set(a, 1), Set(a, 2), Set(a, 3), Set(a, 4), Set(a, 5), Set(a, 6), Set(a, 7),
              Set(b, 0), Set(b, 1), Set(b, 2), Set(b, 3), Set(b, 4), Set(b, 5), Set(b, 6), Set(b, 7));
  }
}

/** CRC-32 as both tools compute it (package-extension.js, make-icons.js): one table lookup a
    byte, against the definition that shifts the message through a register bit by bit. */
module Crc32 {
  import opened Common
  import opened Octets

  // ---- 32-bit words ----

  function Xor(a: bv32, b: bv32): bv32 {
    a ^ b
  }

  function And(a: bv32, b: bv32): bv32 {
    a & b
  }

  /** `word >>> 1` */
  function Half(word: bv32): bv32 {
    word >> 1
  }

  /** `word & 1` */
  function Bit(word: bv32): bv32 {
    word & 1
  }

  const POLYNOMIAL: bv32 := 0xedb8_8320
  const ONES: bv32 := 0xffff_ffff

  // ---- The definition ----

  /** One step of the reflected register. */
  function Shift(register: bv32): bv32 {
    if Bit(register) == 1 then Xor(Half(register), POLYNOMIAL) else Half(register)
  }

  function Feed(register: bv32, bit: bv32): bv32 {
    Shift(Xor(register, bit))
  }

  /** The register after these message bits. */
  function Register(register: bv32, bits: seq<bv32>): bv32
    decreases |bits|
  {
    if bits == [] then register else Register(Feed(register, bits[0]), bits[1..])
  }

  /** The low `n` bits of a word, lowest first: the order in which they are sent. */
  function LowFirst(word: bv32, n: nat): (bits: seq<bv32>)
    ensures |bits| == n
    decreases n
  {
    if n == 0 then [] else [Bit(word)] + LowFirst(Half(word), n - 1)
  }

  function Wide(octet: bv8): bv32 {
    octet as bv32
  }

  function Word(b: byte): (w: bv32)
    ensures w & 0xff == w
  {
    Wide(Octet(b))
  }

  function Message(buffer: seq<byte>): (bits: seq<bv32>)
    ensures |bits| == 8 * |buffer|
  {
    if buffer == [] then []
    else Message(buffer[..|buffer| - 1]) + LowFirst(Word(buffer[|buffer| - 1]), 8)
  }

  function Crc(buffer: seq<byte>): bv32 {
    Xor(Register(ONES, Message(buffer)), ONES)
  }

  function AsNumber(word: bv32): u32 {
    word as u32
  }

  /** The checksum as the number that is written out. */
  function Checksum(buffer: seq<byte>): u32 {
    AsNumber(Crc(buffer))
  }

  // ---- A byte at a time ----

  function Shifts(register: bv32, n: nat): bv32
    decreases n
  {
    if n == 0 then register else Shifts(Shift(register), n - 1)
  }

  function High(word: bv32, n: nat): bv32
    decreases n
  {
    if n == 0 then word else High(Half(word), n - 1)
  }

  function Wider(mask: bv32): bv32 {
    (mask << 1) | 1
  }

  /** `n` one bits. */
  function Mask(n: nat): bv32 {
    if n == 0 then 0 else Wider(Mask(n - 1))
  }

  lemma {:induction false} RegisterAppend(register: bv32, a: seq<bv32>, b: seq<bv32>)
    ensures Register(register, a + b) == Register(Register(register, a), b)
    decreases |a|
  {
    hide Feed;
    if a == [] {
      assert a + b == b;
    } else {
      assert (a + b)[1..] == a[1..] + b;
      RegisterAppend(Feed(register, a[0]), a[1..], b);
    }
  }

  lemma XorSplits(register: bv32, word: bv32)
    ensures Bit(Xor(register, word)) == Bit(Xor(register, Bit(word)))
    ensures Half(Xor(register, word)) == Xor(Half(Xor(register, Bit(word))), Half(word))
  {
  }

  lemma XorSwaps(a: bv32, b: bv32, c: bv32)
    ensures Xor(Xor(a, b), c) == Xor(Xor(a, c), b)
  {
    hide Xor;
    XorAssociates(a, b, c);
    XorCommutes(b, c);
    XorAssociates(a, c, b);
  }

  lemma XorAssociates(a: bv32, b: bv32, c: bv32)
    ensures Xor(Xor(a, b), c) == Xor(a, Xor(b, c))
  {
  }

  /** A step on a whole word is a step on its lowest bit, the others one place down. */
  lemma ShiftSplits(register: bv32, word: bv32)
    ensures Shift(Xor(register, word)) == Xor(Feed(register, Bit(word)), Half(word))
  {
    hide Xor, Half, Bit;
    XorSplits(register, word);
    XorSwaps(Half(Xor(register, Bit(word))), Half(word), POLYNOMIAL);
  }

  /** Shifting a word out of the register feeds its low bits and leaves its high ones. */
  lemma {:induction false} ShiftsFeed(register: bv32, word: bv32, n: nat)
    ensures Shifts(Xor(register, word), n) == Xor(Register(register, LowFirst(word, n)), High(word, n))
    decreases n
  {
    hide Shift, Feed, Xor, Bit, Half;
    if n > 0 {
      var bits := LowFirst(word, n);
      assert bits[0] == Bit(word) && bits[1..] == LowFirst(Half(word), n - 1);
      ShiftSplits(register, word);
      ShiftsFeed(Feed(register, Bit(word)), Half(word), n - 1);
    }
  }

  lemma MaskStep(word: bv32, mask: bv32)
    ensures Bit(And(word, Wider(mask))) == Bit(word)
    ensures Half(And(word, Wider(mask))) == And(Half(word), mask)
  {
  }

  /** Bits above the mask do not matter to the bits below it... */
  lemma {:induction false} LowBits(word: bv32, n: nat)
    ensures LowFirst(And(word, Mask(n)), n) == LowFirst(word, n)
    ensures High(And(word, Mask(n)), n) == 0
    decreases n
  {
    hide Bit, Half, And, Wider;
    if n > 0 {
      MaskStep(word, Mask(n - 1));
      LowBits(Half(word), n - 1);
    } else {
      AndZero(word);
    }
  }

  lemma AndZero(word: bv32)
    ensures And(word, 0) == 0
  {
  }

  lemma XorZero(word: bv32)
    ensures Xor(word, 0) == word && Xor(0, word) == word
  {
  }

  lemma ByteMask()
    ensures Mask(8) == 0xff
  {
    assert Mask(4) == 0xf;
  }

  lemma EightHalves(word: bv32)
    ensures Half(word) == word >> 1 && Half(word >> 1) == word >> 2 && Half(word >> 2) == word >> 3
    ensures Half(word >> 3) == word >> 4 && Half(word >> 4) == word >> 5 && Half(word >> 5) == word >> 6
    ensures Half(word >> 6) == word >> 7 && Half(word >> 7) == word >> 8
  {
  }

  lemma HighOfByte(word: bv32)
    ensures High(word, 8) == word >> 8
  {
    hide Half;
    EightHalves(word);
    assert High(word >> 6, 2) == word >> 8;
    assert High(word >> 4, 4) == word >> 8;
    assert High(word >> 2, 6) == word >> 8;
  }

  function Sent(on: bool): bv32 {
    if on then 1 else 0
  }

  lemma PackedBits(b0: bool, b1: bool, b2: bool, b3: bool, b4: bool, b5: bool, b6: bool, b7: bool)
    ensures var w := Pack(b0, b1, b2, b3, b4, b5, b6, b7) as bv32;
      && w & 1 == Sent(b0) && (w >> 1) & 1 == Sent(b1) && (w >> 2) & 1 == Sent(b2) && (w >> 3) & 1 == Sent(b3)
      && (w >> 4) & 1 == Sent(b4) && (w >> 5) & 1 == Sent(b5) && (w >> 6) & 1 == Sent(b6) && (w >> 7) & 1 == Sent(b7)
  {
  }

  lemma BitAt(word: bv32)
    ensures Bit(High(word, 0)) == word & 1 && Bit(High(word, 1)) == (word >> 1) & 1
    ensures Bit(High(word, 2)) == (word >> 2) & 1 && Bit(High(word, 3)) == (word >> 3) & 1
    ensures Bit(High(word, 4)) == (word >> 4) & 1 && Bit(High(word, 5)) == (word >> 5) & 1
    ensures Bit(High(word, 6)) == (word >> 6) & 1 && Bit(High(word, 7)) == (word >> 7) & 1
  {
    hide High;
    HighAt(word);
  }

  lemma PackedHigh(b0: bool, b1: bool, b2: bool, b3: bool, b4: bool, b5: bool, b6: bool, b7: bool)
    ensures var w := Wide(Pack(b0, b1, b2, b3, b4, b5, b6, b7));
      && Bit(High(w, 0)) == Sent(b0) && Bit(High(w, 1)) == Sent(b1) && Bit(High(w, 2)) == Sent(b2)
      && Bit(High(w, 3)) == Sent(b3) && Bit(High(w, 4)) == Sent(b4) && Bit(High(w, 5)) == Sent(b5)
      && Bit(High(w, 6)) == Sent(b6) && Bit(High(w, 7)) == Sent(b7)
  {
    hide High, Bit, Pack, Sent;
    PackedBits(b0, b1, b2, b3, b4, b5, b6, b7);
    BitAt(Pack(b0, b1, b2, b3, b4, b5, b6, b7) as bv32);
  }

  lemma {:induction false} LowFirstAt(word: bv32, n: nat, i: nat)
    requires i < n
    ensures LowFirst(word, n)[i] == Bit(High(word, i))
    decreases n
  {
    hide Bit, Half;
    if i > 0 {
      assert LowFirst(word, n)[1..] == LowFirst(Half(word), n - 1);
      LowFirstAt(Half(word), n - 1, i - 1);
    }
  }

  lemma HighAt(word: bv32)
    ensures High(word, 0) == word && High(word, 1) == word >> 1 && High(word, 2) == word >> 2
    ensures High(word, 3) == word >> 3 && High(word, 4) == word >> 4 && High(word, 5) == word >> 5
    ensures High(word, 6) == word >> 6 && High(word, 7) == word >> 7
  {
    hide Half;
    EightHalves(word);
    assert High(word >> 3, 1) == word >> 4 && High(word >> 3, 2) == word >> 5;
    assert High(word >> 3, 3) == word >> 6 && High(word >> 3, 4) == word >> 7;
  }

  lemma PlaceAt(b: byte, place: nat)
    requires place < 8
    ensures Bit(High(Word(b), place)) == Sent(Set(b, place))
  {
    hide High, Bit, Set, Sent, Wide, Pack;
    PackedHigh(Set(b, 0), Set(b, 1), Set(b, 2), Set(b, 3), Set(b, 4), Set(b, 5), Set(b, 6), Set(b, 7));
    match place {
      case 0 =>
      case 1 =>
      case 2 =>
      case 3 =>
      case 4 =>
      case 5 =>
      case 6 =>
      case 7 =>
    }
  }

  /** What is sent for a byte is its own binary digits, lowest first. */
  lemma {:induction false} ByteIsSentLowestFirst(b: byte, place: nat)
    requires place < 8
    ensures LowFirst(Word(b), 8)[place] == Sent(Set(b, place))
  {
    hide High, LowFirst, Bit, Set, Sent, Word;
    LowFirstAt(Word(b), 8, place);
    PlaceAt(b, place);
  }

  /** What the table holds for an index: the register after shifting it out. */
  function Entry(index: bv32): bv32 {
    Shifts(index, 8)
  }

  /** `(register >>> 8) ^ table[(register ^ byte) & 0xff]` is eight steps of the definition. */
  lemma LookupFeedsByte(register: bv32, b: byte)
    ensures Register(register, LowFirst(Word(b), 8))
      == Xor(register >> 8, Entry(And(Xor(register, Word(b)), 0xff)))
  {
    hide Shifts, Register, LowFirst, High, Xor, And, Half, Bit;
    var sum := Xor(register, Word(b));
    var low := And(sum, 0xff);
    ByteMask();
    // The whole sum shifted out, read twice: the byte fed into the register...
    ShiftsFeed(register, Word(b), 8);
    HighOfByte(Word(b));
    NoHigh(Word(b));
    XorZero(Register(register, LowFirst(Word(b), 8)));
    // ...and the sum itself fed into an empty one.
    XorZero(sum);
    ShiftsFeed(0, sum, 8);
    HighOfByte(sum);
    SameHigh(register, Word(b));
    // The entry shifts out only the low byte.
    XorZero(low);
    ShiftsFeed(0, low, 8);
    LowBits(sum, 8);
    XorZero(Register(0, LowFirst(sum, 8)));
    XorCommutes(Register(0, LowFirst(sum, 8)), register >> 8);
  }

  lemma NoHigh(word: bv32)
    requires word & 0xff == word
    ensures word >> 8 == 0
  {
  }

  lemma SameHigh(register: bv32, word: bv32)
    requires word & 0xff == word
    ensures Xor(register, word) >> 8 == register >> 8
  {
  }

  lemma XorCommutes(a: bv32, b: bv32)
    ensures Xor(a, b) == Xor(b, a)
  {
  }

  lemma IndexReads(word: bv32)
    ensures 0 <= And(word, 0xff) as int < 256
    ensures (And(word, 0xff) as int) as bv32 == And(word, 0xff)
  {
    AndBound(word);
  }

  lemma AndBound(word: bv32)
    ensures And(word, 0xff) < 256
  {
  }

  lemma NextByte(buffer: seq<byte>, i: nat)
    requires i < |buffer|
    ensures Register(ONES, Message(buffer[..i + 1]))
      == Register(Register(ONES, Message(buffer[..i])), LowFirst(Word(buffer[i]), 8))
  {
    hide Register, LowFirst, Word;
    assert buffer[..i + 1][..i] == buffer[..i];
    RegisterAppend(ONES, Message(buffer[..i]), LowFirst(Word(buffer[i]), 8));
  }

  lemma NothingFed()
    ensures Register(ONES, Message([])) == ONES && forall v :: Shifts(v, 0) == v
  {
  }

  lemma {:induction false} ShiftsSnoc(register: bv32, n: nat)
    ensures Shifts(register, n + 1) == Shift(Shifts(register, n))
    decreases n
  {
    hide Shift;
    if n > 0 {
      ShiftsSnoc(Shift(register), n - 1);
    }
  }

  // ---- What the checksum notices ----

  lemma XorHalves(a: bv32, b: bv32)
    ensures Half(Xor(a, b)) == Xor(Half(a), Half(b))
    ensures Bit(Xor(a, b)) == 1 <==> Bit(a) != Bit(b)
  {
  }

  lemma XorCancels(a: bv32, b: bv32, c: bv32)
    ensures Xor(Xor(a, c), Xor(b, c)) == Xor(a, b)
  {
    hide Xor;
    XorAssociates(a, c, Xor(b, c));
    XorCommutes(b, c);
    XorAssociates(c, c, b);
    XorOfSame(c, c);
    XorZero(b);
  }

  /** A step is linear: the difference of two registers steps like a register. */
  lemma ShiftIsLinear(a: bv32, b: bv32)
    ensures Xor(Shift(a), Shift(b)) == Shift(Xor(a, b))
  {
    hide Xor, Half, Bit;
    BitIsBinary(a);
    BitIsBinary(b);
    XorHalves(a, b);
    XorCancels(Half(a), Half(b), POLYNOMIAL);
    XorSwaps(Half(a), POLYNOMIAL, Half(b));
    XorAssociates(Half(a), Half(b), POLYNOMIAL);
  }

  lemma FeedIsLinear(a: bv32, b: bv32, x: bv32, y: bv32)
    ensures Xor(Feed(a, x), Feed(b, y)) == Feed(Xor(a, b), Xor(x, y))
  {
    hide Shift, Xor;
    ShiftIsLinear(Xor(a, x), Xor(b, y));
    XorAssociates(a, x, Xor(b, y));
    XorAssociates(x, b, y);
    XorCommutes(x, b);
    XorAssociates(b, x, y);
    XorAssociates(a, b, Xor(x, y));
  }

  ghost predicate AreBits(bits: seq<bv32>) {
    forall i :: 0 <= i < |bits| ==> bits[i] <= 1
  }

  ghost predicate AtLeast(a: bv32, b: bv32) {
    a >= b
  }

  /** A difference moves down by one place a step and is never shifted out before the bottom. */
  lemma DifferenceStays(difference: bv32, bit: bv32, t: bv32)
    requires AtLeast(difference, t) && bit <= 1
    ensures AtLeast(Feed(difference, bit), Half(t))
  {
  }

  lemma BitDifference(x: bv32, y: bv32)
    requires x <= 1 && y <= 1
    ensures Xor(x, y) <= 1 && (x != y ==> AtLeast(Feed(0, Xor(x, y)), 0x8000_0000))
  {
  }

  lemma {:induction false} DifferenceLasts(a: bv32, b: bv32, x: seq<bv32>, y: seq<bv32>, t: bv32)
    requires |x| == |y| && AreBits(x) && AreBits(y) && AtLeast(Xor(a, b), t)
    ensures AtLeast(Xor(Register(a, x), Register(b, y)), High(t, |x|))
    decreases |x|
  {
    hide Feed, Xor, Half, AtLeast;
    if x != [] {
      FeedIsLinear(a, b, x[0], y[0]);
      BitDifference(x[0], y[0]);
      DifferenceStays(Xor(a, b), Xor(x[0], y[0]), t);
      DifferenceLasts(Feed(a, x[0]), Feed(b, y[0]), x[1..], y[1..], Half(t));
    }
  }

  lemma {:induction false} HighAdd(word: bv32, a: nat, b: nat)
    ensures High(word, a + b) == High(High(word, a), b)
    decreases a
  {
    hide Half;
    if a > 0 {
      HighAdd(Half(word), a - 1, b);
    }
  }

  lemma {:induction false} HighOfZero(n: nat)
    ensures High(0, n) == 0
    decreases n
  {
    if n > 0 {
      HighOfZero(n - 1);
    }
  }

  lemma TopReachesBottom()
    ensures High(0x8000_0000, 31) == 1
  {
    hide High;
    HighAdd(0x8000_0000, 8, 23);
    HighOfByte(0x8000_0000);
    HighAdd(0x80_0000, 8, 15);
    HighOfByte(0x80_0000);
    HighAdd(0x8000, 8, 7);
    HighOfByte(0x8000);
    SevenDown();
  }

  lemma SevenDown()
    ensures High(0x80, 7) == 1
  {
    assert High(0x8, 3) == 1;
  }

  lemma TopStaysUp(n: nat)
    requires n <= 31
    ensures High(0x8000_0000, n) != 0
  {
    hide High;
    TopReachesBottom();
    HighAdd(0x8000_0000, n, 31 - n);
    HighOfZero(31 - n);
  }

  lemma XorOfSame(a: bv32, b: bv32)
    ensures Xor(a, b) == 0 <==> a == b
  {
    XorWithSelf(b);
    hide Xor;
    XorAssociates(a, b, b);
    XorZero(a);
    XorZero(b);
  }

  lemma XorWithSelf(b: bv32)
    ensures Xor(b, b) == 0
  {
  }

  lemma PositiveStays(a: bv32, b: bv32)
    requires AtLeast(a, b) && b != 0
    ensures a != 0
  {
  }

  /** Two different runs of up to 32 bits leave different registers. */
  lemma {:induction false} BurstShows(register: bv32, x: seq<bv32>, y: seq<bv32>)
    requires |x| == |y| <= 32 && AreBits(x) && AreBits(y) && x != y
    ensures Register(register, x) != Register(register, y)
    decreases |x|
  {
    hide Feed, Xor, High, AtLeast;
    if x[0] == y[0] {
      assert x == [x[0]] + x[1..] && y == [y[0]] + y[1..];
      BurstShows(Feed(register, x[0]), x[1..], y[1..]);
    } else {
      FeedIsLinear(register, register, x[0], y[0]);
      XorOfSame(register, register);
      BitDifference(x[0], y[0]);
      TopStaysUp(|x| - 1);
      DifferenceLasts(Feed(register, x[0]), Feed(register, y[0]), x[1..], y[1..], 0x8000_0000);
      XorOfSame(Register(register, x), Register(register, y));
      PositiveStays(Xor(Register(register, x), Register(register, y)), High(0x8000_0000, |x| - 1));
    }
  }

  lemma FeedIsInjective(a: bv32, b: bv32, bit: bv32)
    requires Feed(a, bit) == Feed(b, bit)
    ensures a == b
  {
    ShiftIsInjective(Xor(a, bit), Xor(b, bit));
    hide Shift;
  }

  lemma ShiftIsInjective(a: bv32, b: bv32)
    requires Shift(a) == Shift(b)
    ensures a == b
  {
  }

  /** Once apart, registers stay apart: nothing that follows can hide a difference. */
  lemma {:induction false} DifferencePersists(a: bv32, b: bv32, bits: seq<bv32>)
    requires a != b
    ensures Register(a, bits) != Register(b, bits)
    decreases |bits|
  {
    hide Feed;
    if bits != [] {
      if Feed(a, bits[0]) == Feed(b, bits[0]) {
        FeedIsInjective(a, b, bits[0]);
      }
      DifferencePersists(Feed(a, bits[0]), Feed(b, bits[0]), bits[1..]);
    }
  }

  lemma BitIsBit(word: bv32)
    ensures Bit(word) <= 1
  {
  }

  lemma {:induction false} LowFirstAreBits(word: bv32, n: nat)
    ensures AreBits(LowFirst(word, n))
    decreases n
  {
    hide Bit, Half;
    if n > 0 {
      BitIsBit(word);
      LowFirstAreBits(Half(word), n - 1);
    }
  }

  lemma {:induction false} MessageAppend(a: seq<byte>, b: seq<byte>)
    ensures Message(a + b) == Message(a) + Message(b)
  {
    hide LowFirst, Word;
    if b == [] {
      assert a + b == a;
    } else {
      assert (a + b)[..|a + b| - 1] == a + b[..|b| - 1];
      MessageAppend(a, b[..|b| - 1]);
    }
  }

  lemma {:induction false} MessageIsBits(buffer: seq<byte>)
    ensures AreBits(Message(buffer))
  {
    hide LowFirst, Word;
    if buffer != [] {
      MessageIsBits(buffer[..|buffer| - 1]);
      LowFirstAreBits(Word(buffer[|buffer| - 1]), 8);
    }
  }

  lemma SameHalves(a: bv32, b: bv32)
    requires Bit(a) == Bit(b) && Half(a) == Half(b)
    ensures a == b
  {
  }

  lemma {:induction false} LowFirstTells(a: bv32, b: bv32, n: nat)
    requires LowFirst(a, n) == LowFirst(b, n) && High(a, n) == High(b, n)
    ensures a == b
    decreases n
  {
    hide Bit, Half;
    if n > 0 {
      assert LowFirst(a, n)[0] == Bit(a) && LowFirst(b, n)[0] == Bit(b);
      assert LowFirst(a, n)[1..] == LowFirst(Half(a), n - 1) && LowFirst(b, n)[1..] == LowFirst(Half(b), n - 1);
      LowFirstTells(Half(a), Half(b), n - 1);
      SameHalves(a, b);
    }
  }

  lemma WordTells(a: byte, b: byte)
    requires Word(a) == Word(b)
    ensures a == b
  {
    Widened(Octet(a), Octet(b));
    OctetTells(a, b);
  }

  lemma Widened(a: bv8, b: bv8)
    requires a as bv32 == b as bv32
    ensures a == b
  {
  }

  lemma {:induction false} MessageTells(x: seq<byte>, y: seq<byte>)
    requires |x| == |y| && Message(x) == Message(y)
    ensures x == y
  {
    hide LowFirst, Word, High;
    if x != [] {
      var n := |x| - 1;
      var mx, my := Message(x[..n]), Message(y[..n]);
      assert Message(x)[..8 * n] == mx && Message(y)[..8 * n] == my;
      assert Message(x)[8 * n..] == LowFirst(Word(x[n]), 8) && Message(y)[8 * n..] == LowFirst(Word(y[n]), 8);
      MessageTells(x[..n], y[..n]);
      HighOfByte(Word(x[n]));
      HighOfByte(Word(y[n]));
      NoHigh(Word(x[n]));
      NoHigh(Word(y[n]));
      LowFirstTells(Word(x[n]), Word(y[n]), 8);
      WordTells(x[n], y[n]);
      assert x == x[..n] + [x[n]] && y == y[..n] + [y[n]];
    }
  }

  lemma XorTells(a: bv32, b: bv32, c: bv32)
    requires a != b
    ensures Xor(a, c) != Xor(b, c)
  {
  }

  /** The number has the word's bits. */
  lemma NumberTells(a: bv32, b: bv32)
    ensures AsNumber(a) as bv32 == a
    ensures AsNumber(a) == AsNumber(b) ==> a == b
  {
    Unchanged(a);
    Unchanged(b);
    hide AsNumber;
  }

  lemma Unchanged(word: bv32)
    ensures AsNumber(word) as bv32 == word
  {
  }

  /** Damage within any four bytes in a row, whatever stands before and after it, changes the
      checksum. */
  lemma DamageIsNoticed(before: seq<byte>, x: seq<byte>, y: seq<byte>, after: seq<byte>)
    requires |x| == |y| <= 4 && x != y
    ensures Checksum(before + x + after) != Checksum(before + y + after)
  {
    hide Register, Message, Xor;
    var register := Register(ONES, Message(before));
    MessageAppend(before + x, after);
    MessageAppend(before, x);
    MessageAppend(before + y, after);
    MessageAppend(before, y);
    RegisterAppend(ONES, Message(before), Message(x));
    RegisterAppend(ONES, Message(before) + Message(x), Message(after));
    RegisterAppend(ONES, Message(before), Message(y));
    RegisterAppend(ONES, Message(before) + Message(y), Message(after));
    MessageIsBits(x);
    MessageIsBits(y);
    if Message(x) == Message(y) {
      MessageTells(x, y);
    }
    BurstShows(register, Message(x), Message(y));
    DifferencePersists(Register(register, Message(x)), Register(register, Message(y)), Message(after));
    XorTells(Register(ONES, Message(before + x + after)), Register(ONES, Message(before + y + after)), ONES);
    NumberTells(Crc(before + x + after), Crc(before + y + after));
  }

  // ---- The check value ----

  /** Eight steps with nothing fed in. */
  function EightShifts(v: bv32): bv32 {
    Shift(Shift(Shift(Shift(Shift(Shift(Shift(Shift(v))))))))
  }

  lemma FedByte(register: bv32, b: byte)
    ensures Register(register, LowFirst(Word(b), 8)) == EightShifts(Xor(register, Word(b)))
  {
    hide Register, LowFirst, High, Xor, Half, Bit, Shift;
    ShiftsFeed(register, Word(b), 8);
    HighOfByte(Word(b));
    NoHigh(Word(b));
    XorZero(Register(register, LowFirst(Word(b), 8)));
  }

  lemma DigitBits(b: nat, b0: bool, b1: bool, b2: bool, b3: bool)
    requires b == 0x30 + (if b0 then 1 else 0) + (if b1 then 2 else 0) + (if b2 then 4 else 0) + if b3 then 8 else 0
    ensures Set(b, 0) == b0 && Set(b, 1) == b1 && Set(b, 2) == b2 && Set(b, 3) == b3
    ensures Set(b, 4) && Set(b, 5) && !Set(b, 6) && !Set(b, 7)
  {
    var c := b / 2;
    var d := c / 2;
    assert c == 0x18 + (if b1 then 1 else 0) + (if b2 then 2 else 0) + if b3 then 4 else 0;
    assert d == 0xC + (if b2 then 1 else 0) + if b3 then 2 else 0;
    assert d / 2 == 6 + if b3 then 1 else 0;
    assert d / 2 / 2 == 3;
  }

  lemma DigitWord(b: byte, b0: bool, b1: bool, b2: bool, b3: bool)
    requires b == 0x30 + (if b0 then 1 else 0) + (if b1 then 2 else 0) + (if b2 then 4 else 0) + if b3 then 8 else 0
    ensures Word(b)
      == 0x30 | (if b0 then 1 else 0) | (if b1 then 2 else 0) | (if b2 then 4 else 0) | if b3 then 8 else 0
  {
    DigitBits(b, b0, b1, b2, b3);
    hide Set;
  }

  lemma FirstDigits()
    ensures EightShifts(Xor(ONES, 0x31)) == 0x7c23_1048
    ensures EightShifts(Xor(0x7c23_1048, 0x32)) == 0xb0ac_bb32
    ensures EightShifts(Xor(0xb0ac_bb32, 0x33)) == 0x77b7_9c2d
    ensures EightShifts(Xor(0x77b7_9c2d, 0x34)) == 0x641c_1f5c
    ensures EightShifts(Xor(0x641c_1f5c, 0x35)) == 0x340a_c5e3
    ensures EightShifts(Xor(0x340a_c5e3, 0x36)) == 0xf68d_2c9e
    ensures EightShifts(Xor(0xf68d_2c9e, 0x37)) == 0xaffc_9660
    ensures EightShifts(Xor(0xaffc_9660, 0x38)) == 0x651f_2550
    ensures EightShifts(Xor(0x651f_2550, 0x39)) == 0x340b_c6d9
  {
  }

  /** The check value of CRC-32: that of the text "123456789". */
  lemma {:induction false} CheckValue()
    ensures Checksum([0x31, 0x32, 0x33, 0x34, 0x35, 0x36, 0x37, 0x38, 0x39]) == 0xCBF4_3926
  {
    hide Register, Message, LowFirst, Word, Xor, EightShifts;
    var text: seq<byte> := [0x31, 0x32, 0x33, 0x34, 0x35, 0x36, 0x37, 0x38, 0x39];
    NothingFed();
    var one, off := true, false;
    DigitWord(text[0], one, off, off, off);
    DigitWord(text[1], off, one, off, off);
    DigitWord(text[2], one, one, off, off);
    DigitWord(text[3], off, off, one, off);
    DigitWord(text[4], one, off, one, off);
    DigitWord(text[5], off, one, one, off);
    DigitWord(text[6], one, one, one, off);
    DigitWord(text[7], off, off, off, one);
    DigitWord(text[8], one, off, off, one);
    FirstDigits();
    for i := 0 to 9
      invariant Register(ONES, Message(text[..i]))
        == [ONES, 0x7c23_1048, 0xb0ac_bb32, 0x77b7_9c2d, 0x641c_1f5c, 0x340a_c5e3, 0xf68d_2c9e, 0xaffc_9660,
            0x651f_2550, 0x340b_c6d9][i]
    {
      NextByte(text, i);
      FedByte(Register(ONES, Message(text[..i])), text[i]);
    }
    assert text[..9] == text;
    LastComplement();
  }

  lemma LastComplement()
    ensures AsNumber(Xor(0x340b_c6d9, ONES)) == 0xCBF4_3926
  {
  }

  // ---- The packager's table ----

  /** package-extension.js keeps its table in an array that the first call fills. */
  class PackageCrc {
    var table: array?<bv32>

    ghost predicate Valid()
      reads this, table
    {
      table != null ==> table.Length == 256 && forall n :: 0 <= n < 256 ==> table[n] == Entry(n as bv32)
    }

    constructor ()
      ensures Valid() && table == null
    {
      table := null;
    }

    static method Fill() returns (filled: array<bv32>)
      ensures fresh(filled) && filled.Length == 256
      ensures forall n :: 0 <= n < 256 ==> filled[n] == Entry(n as bv32)
    {
      hide Shift, Shifts, Xor, Half, Bit, Entry;
      NothingFed();
      filled := new bv32[256];
      for index := 0 to 256
        invariant forall n :: 0 <= n < index ==> filled[n] == Entry(n as bv32)
      {
        var value := index as bv32;
        for bit := 0 to 8
          invariant value == Shifts(index as bv32, bit)
          invariant forall n :: 0 <= n < index ==> filled[n] == Entry(n as bv32)
        {
          ShiftsSnoc(index as bv32, bit);
          StepIsShift(value);
          value := if Bit(value) != 0 then Xor(Half(value), 0xedb8_8320) else Half(value);
        }
        EntryIsShifts(index as bv32);
        filled[index] := value;
      }
    }

    method Crc32(buffer: seq<byte>) returns (crc: bv32)
      requires Valid()
      modifies this`table
      ensures Valid() && table != null && (if old(table) != null then table == old(table) else fresh(table))
      ensures crc == Crc(buffer)
    {
      hide Shift, Shifts, Register, LowFirst, Xor, And, Half, Bit, Message, Entry;
      NothingFed();
      if table == null {
        table := Fill();
      }
      label Filled:
      crc := 0xffff_ffff;
      for i := 0 to |buffer|
        invariant table == old@Filled(table) && Valid()
        invariant crc == Register(ONES, Message(buffer[..i]))
      {
        NextByte(buffer, i);
        LookupFeedsByte(crc, buffer[i]);
        IndexReads(Xor(crc, Word(buffer[i])));
        crc := Xor(crc >> 8, table[And(Xor(crc, Word(buffer[i])), 0xff) as int]);
      }
      assert buffer[..|buffer|] == buffer;
      crc := Xor(crc, 0xffff_ffff);
    }
  }

  lemma StepIsShift(value: bv32)
    ensures Shift(value) == if Bit(value) != 0 then Xor(Half(value), 0xedb8_8320) else Half(value)
  {
    BitIsBinary(value);
    hide Bit, Xor, Half;
  }

  lemma BitIsBinary(value: bv32)
    ensures Bit(value) == 0 || Bit(value) == 1
  {
  }

  lemma EntryIsShifts(index: bv32)
    ensures Entry(index) == Shifts(index, 8)
  {
  }

  // ---- The icon maker's table ----

  /** make-icons.js keeps its table as a list on the function itself. */
  class IconCrc {
    var table: Option<seq<bv32>>

    ghost predicate Valid()
      reads this
    {
      table.Some? ==> |table.value| == 256 && forall n :: 0 <= n < 256 ==> table.value[n] == Entry(n as bv32)
    }

    constructor ()
      ensures Valid() && table == None
    {
      table := None;
    }

    method Crc32(buffer: seq<byte>) returns (crc: bv32)
      requires Valid()
      modifies this
      ensures Valid() && table.Some? && (old(table).Some? ==> table == old(table))
      ensures crc == Crc(buffer)
    {
      hide Shift, Shifts, Register, LowFirst, Xor, And, Half, Bit, Message, Entry;
      NothingFed();
      if table.None? {
        var filled: seq<bv32> := [];
        for n := 0 to 256
          invariant |filled| == n && forall k :: 0 <= k < n ==> filled[k] == Entry(k as bv32)
        {
          var c := n as bv32;
          for k := 0 to 8
            invariant c == Shifts(n as bv32, k)
          {
            ShiftsSnoc(n as bv32, k);
            StepIsShift(c);
            XorCommutes(Half(c), 0xedb8_8320);
            c := if Bit(c) != 0 then Xor(0xedb8_8320, Half(c)) else Half(c);
          }
          EntryIsShifts(n as bv32);
          filled := filled + [c];
        }
        table := Some(filled);
      }
      crc := 0xffff_ffff;
      for i := 0 to |buffer|
        invariant Valid() && table.Some? && (old(table).Some? ==> table == old(table))
        invariant crc == Register(ONES, Message(buffer[..i]))
      {
        NextByte(buffer, i);
        LookupFeedsByte(crc, buffer[i]);
        var index := And(Xor(crc, Word(buffer[i])), 0xff);
        IndexReads(Xor(crc, Word(buffer[i])));
        XorCommutes(crc >> 8, Entry(index));
        crc := Xor(table.value[index as int], crc >> 8);
      }
      assert buffer[..|buffer|] == buffer;
      crc := Xor(crc, 0xffff_ffff);
    }
  }
}
