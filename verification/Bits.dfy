/** Bit strings, most significant bit first, and their regrouping into digits of a fixed width:
    the picture RFC 4648 (sections 4 to 6) draws of base 64 and base 32. The encoders and
    decoders, whatever shape their loops have, are all proved against this one definition. */
module Bits {
  import opened Common

  type BitString = seq<bool>

  function Pow2(n: nat): (r: nat)
    ensures r > 0
  {
    if n == 0 then 1 else 2 * Pow2(n - 1)
  }

  function Value(s: BitString): nat {
    if s == [] then 0 else 2 * Value(s[..|s| - 1]) + (if s[|s| - 1] then 1 else 0)
  }

  /** The low `n` bits of `v`. */
  function ToBits(v: nat, n: nat): (s: BitString)
    ensures |s| == n
  {
    if n == 0 then [] else ToBits(v / 2, n - 1) + [v % 2 == 1]
  }

  function Zeros(n: nat): BitString {
    seq(n, i => false)
  }

  lemma {:induction false} Pow2Add(a: nat, b: nat)
    ensures Pow2(a + b) == Pow2(a) * Pow2(b)
  {
    if b > 0 {
      Pow2Add(a, b - 1);
      assert Pow2(a) * (2 * Pow2(b - 1)) == 2 * (Pow2(a) * Pow2(b - 1));
    }
  }

  lemma {:induction false} ValueBound(s: BitString)
    ensures Value(s) < Pow2(|s|)
  {
    if s != [] {
      ValueBound(s[..|s| - 1]);
    }
  }

  lemma {:induction false} ValueAppend(a: BitString, b: BitString)
    ensures Value(a + b) == Value(a) * Pow2(|b|) + Value(b)
  {
    if b == [] {
      assert a + b == a;
    } else {
      var n := |b| - 1;
      assert (a + b)[..|a + b| - 1] == a + b[..n];
      ValueAppend(a, b[..n]);
      Double(Value(a), Pow2(n));
      assert Value(a + b) == 2 * Value(a + b[..n]) + (if b[n] then 1 else 0);
    }
  }

  lemma Double(x: int, y: int)
    ensures x * (2 * y) == 2 * (x * y)
  {
  }

  lemma {:induction false} ValueOfBits(v: nat, n: nat)
    requires v < Pow2(n)
    ensures Value(ToBits(v, n)) == v
  {
    if n > 0 {
      ValueOfBits(v / 2, n - 1);
      assert ToBits(v, n)[..n - 1] == ToBits(v / 2, n - 1);
    }
  }

  lemma {:induction false} BitsOfValue(s: BitString)
    ensures ToBits(Value(s), |s|) == s
  {
    if s != [] {
      BitsOfValue(s[..|s| - 1]);
      assert s == s[..|s| - 1] + [s[|s| - 1]];
    }
  }

  lemma {:induction false} ZerosValue(s: BitString)
    ensures Value(s) == 0 <==> s == Zeros(|s|)
  {
    if s != [] {
      var init := s[..|s| - 1];
      ZerosValue(init);
      assert s == init + [s[|s| - 1]];
      assert Zeros(|s|) == Zeros(|init|) + [false];
      if s == Zeros(|s|) {
        assert init == Zeros(|s|)[..|init|];
        assert init == Zeros(|init|);
      }
    }
  }

  // ---- Digits of a fixed width ----

  ghost predicate AllBelow(digits: seq<nat>, n: nat) {
    forall i :: 0 <= i < |digits| ==> digits[i] < n
  }

  /** The digits' bits, one after another. */
  function BitsOf(w: nat, digits: seq<nat>): BitString {
    if digits == [] then []
    else BitsOf(w, digits[..|digits| - 1]) + ToBits(digits[|digits| - 1], w)
  }

  lemma {:induction false} BitsOfLength(w: nat, digits: seq<nat>)
    ensures |BitsOf(w, digits)| == w * |digits|
  {
    if digits != [] {
      BitsOfLength(w, digits[..|digits| - 1]);
      assert w * (|digits| - 1) + w == w * |digits|;
    }
  }

  /** The whole groups of `w` bits, as digits. */
  function Groups(w: nat, s: BitString): seq<nat>
    requires w > 0
    decreases |s|
  {
    if |s| < w then [] else [Value(s[..w])] + Groups(w, s[w..])
  }

  /** The bits after the last whole group. */
  function Leftover(w: nat, s: BitString): (r: BitString)
    requires w > 0
    ensures |r| < w
    decreases |s|
  {
    if |s| < w then s else Leftover(w, s[w..])
  }

  /** The groups, with a last one padded with zero bits when it is not whole. */
  function PaddedGroups(w: nat, s: BitString): seq<nat>
    requires w > 0
  {
    var left := Leftover(w, s);
    Groups(w, s) + (if left == [] then [] else [Value(left + Zeros(w - |left|))])
  }

  lemma {:induction false} GroupsAppend(w: nat, a: BitString, b: BitString)
    requires w > 0
    ensures Groups(w, a + b) == Groups(w, a) + Groups(w, Leftover(w, a) + b)
    ensures Leftover(w, a + b) == Leftover(w, Leftover(w, a) + b)
    decreases |a|
  {
    if |a| >= w {
      assert (a + b)[..w] == a[..w] && (a + b)[w..] == a[w..] + b;
      GroupsAppend(w, a[w..], b);
    }
  }

  lemma {:induction false} GroupsBelow(w: nat, s: BitString)
    requires w > 0
    ensures AllBelow(Groups(w, s), Pow2(w))
    decreases |s|
  {
    if |s| >= w {
      ValueBound(s[..w]);
      GroupsBelow(w, s[w..]);
    }
  }

  lemma {:induction false} BitsOfAppend(w: nat, a: seq<nat>, b: seq<nat>)
    ensures BitsOf(w, a + b) == BitsOf(w, a) + BitsOf(w, b)
  {
    if b == [] {
      assert a + b == a;
    } else {
      var n := |b| - 1;
      assert (a + b)[..|a + b| - 1] == a + b[..n];
      BitsOfAppend(w, a, b[..n]);
      assert BitsOf(w, a) + BitsOf(w, b[..n]) + ToBits(b[n], w) == BitsOf(w, a) + (BitsOf(w, b[..n]) + ToBits(b[n], w));
    }
  }

  lemma OneDigit(w: nat, d: nat)
    ensures BitsOf(w, [d]) == ToBits(d, w)
  {
    assert [d][..0] == [];
  }

  lemma FirstDigit(w: nat, digits: seq<nat>)
    requires digits != []
    ensures BitsOf(w, digits) == ToBits(digits[0], w) + BitsOf(w, digits[1..])
  {
    assert digits == [digits[0]] + digits[1..];
    BitsOfAppend(w, [digits[0]], digits[1..]);
    OneDigit(w, digits[0]);
  }

  lemma FirstGroup(w: nat, group: BitString, s: BitString)
    requires w > 0 && |group| == w
    ensures Groups(w, group + s) == [Value(group)] + Groups(w, s)
    ensures Leftover(w, group + s) == Leftover(w, s)
  {
    assert (group + s)[..w] == group && (group + s)[w..] == s;
  }

  /** Grouping undoes concatenating digits... */
  lemma {:induction false} DigitsComeBack(w: nat, digits: seq<nat>, rest: BitString)
    requires w > 0 && AllBelow(digits, Pow2(w)) && |rest| < w
    ensures Groups(w, BitsOf(w, digits) + rest) == digits
    ensures Leftover(w, BitsOf(w, digits) + rest) == rest
    decreases |digits|
  {
    hide Value, ToBits, Groups, Leftover, Pow2;
    if digits == [] {
      assert BitsOf(w, digits) + rest == rest;
      NoGroups(w, rest);
    } else {
      FirstDigit(w, digits);
      var more := BitsOf(w, digits[1..]) + rest;
      assert BitsOf(w, digits) + rest == ToBits(digits[0], w) + more;
      FirstGroup(w, ToBits(digits[0], w), more);
      ValueOfBits(digits[0], w);
      DigitsComeBack(w, digits[1..], rest);
    }
  }

  lemma NoGroups(w: nat, s: BitString)
    requires |s| < w
    ensures Groups(w, s) == [] && Leftover(w, s) == s
  {
  }

  /** ...and concatenating the groups undoes grouping, but for the leftover. */
  lemma {:induction false} BitsComeBack(w: nat, s: BitString)
    requires w > 0
    ensures BitsOf(w, Groups(w, s)) + Leftover(w, s) == s
    decreases |s|
  {
    hide BitsOf, Value, Groups, Leftover;
    if |s| >= w {
      assert s == s[..w] + s[w..];
      FirstGroup(w, s[..w], s[w..]);
      BitsComeBack(w, s[w..]);
      FirstDigit(w, [Value(s[..w])] + Groups(w, s[w..]));
      BitsOfValue(s[..w]);
    } else {
      NoGroups(w, s);
      NoBits(w);
    }
  }

  lemma NoBits(w: nat)
    ensures BitsOf(w, []) == []
  {
  }

  lemma PaddedBits(w: nat, s: BitString) returns (pad: nat)
    requires w > 0
    ensures pad < w && BitsOf(w, PaddedGroups(w, s)) == s + Zeros(pad)
    ensures AllBelow(PaddedGroups(w, s), Pow2(w))
    ensures pad == 0 <==> Leftover(w, s) == []
  {
    hide BitsOf, Value, Groups, Leftover, Pow2;
    var left := Leftover(w, s);
    BitsComeBack(w, s);
    GroupsBelow(w, s);
    if left == [] {
      pad := 0;
      assert PaddedGroups(w, s) == Groups(w, s);
      assert s + Zeros(0) == s;
    } else {
      pad := w - |left|;
      var last := left + Zeros(pad);
      BitsOfAppend(w, Groups(w, s), [Value(last)]);
      OneDigit(w, Value(last));
      BitsOfValue(last);
      ValueBound(last);
      assert BitsOf(w, Groups(w, s)) + (left + Zeros(pad)) == BitsOf(w, Groups(w, s)) + left + Zeros(pad);
    }
  }

  // ---- Text digits and bytes ----

  /** The digits of width `w` that spell these bytes. */
  function Spelled(w: nat, bytes: seq<nat>): seq<nat>
    requires w > 0
  {
    PaddedGroups(w, BitsOf(8, bytes))
  }

  /** The bytes that digits of width `w` spell, and the bits they leave over. */
  function Unspelled(w: nat, digits: seq<nat>): seq<nat> {
    Groups(8, BitsOf(w, digits))
  }

  function Excess(w: nat, digits: seq<nat>): BitString {
    Leftover(8, BitsOf(w, digits))
  }

  /** Reading back a spelling gives the bytes, and only zero bits are left over, fewer than a
      digit's worth. */
  lemma {:induction false} SpellingReadsBack(w: nat, bytes: seq<nat>)
    requires 0 < w <= 8 && AllBelow(bytes, Pow2(8))
    ensures Unspelled(w, Spelled(w, bytes)) == bytes
    ensures Excess(w, Spelled(w, bytes)) == Zeros(|Excess(w, Spelled(w, bytes))|)
    ensures |Excess(w, Spelled(w, bytes))| < w
    ensures AllBelow(Spelled(w, bytes), Pow2(w))
  {
    var pad := PaddedBits(w, BitsOf(8, bytes));
    DigitsComeBack(8, bytes, Zeros(pad));
  }

  /** Digits that leave over only zero bits, fewer than a digit's worth, are the spelling of the
      bytes they read as: no second spelling is accepted. */
  lemma {:induction false} CleanDigitsAreSpellings(w: nat, digits: seq<nat>)
    requires 0 < w <= 8 && AllBelow(digits, Pow2(w))
    requires |Excess(w, digits)| < w && Excess(w, digits) == Zeros(|Excess(w, digits)|)
    ensures Spelled(w, Unspelled(w, digits)) == digits
    ensures AllBelow(Unspelled(w, digits), Pow2(8))
  {
    hide BitsOf, Value, Pow2;
    var all := BitsOf(w, digits);
    var b := BitsOf(8, Unspelled(w, digits));
    var excess := Excess(w, digits);
    BitsComeBack(8, all);
    GroupsBelow(8, all);
    DigitsComeBack(w, digits, []);
    assert all + [] == all && b + excess == all;
    GroupsAppend(w, b, excess);
    LastGroup(w, Leftover(w, b), excess);
  }

  /** Two pieces shorter than a group that together leave nothing over fill one group or none. */
  lemma LastGroup(w: nat, left: BitString, excess: BitString)
    requires w > 0 && |left| < w && |excess| < w && excess == Zeros(|excess|)
    requires Leftover(w, left + excess) == []
    ensures Groups(w, left + excess) == if left == [] then [] else [Value(left + Zeros(w - |left|))]
  {
    var s := left + excess;
    if |s| >= w {
      assert Leftover(w, s[w..]) == s[w..] == [];
      assert s[..w] == s;
    } else {
      assert s == [];
    }
  }

  // ---- The 32-bit accumulator ----

  const WORD := 0x1_0000_0000

  lemma WordIsPow2()
    ensures Pow2(32) == WORD && Pow2(8) == 0x100 && Pow2(6) == 64 && Pow2(5) == 32
  {
    assert Pow2(8) == 0x100;
    Pow2Add(8, 8);
    Pow2Add(16, 16);
  }

  /** `accumulator << k` on 32 bits: what does not fit is dropped. */
  function ShiftLeft(accumulator: u32, k: nat): u32 {
    accumulator * Pow2(k) % WORD
  }

  /** `(accumulator << k) | v`: the shift leaves the low bits clear, so the two add. */
  function ShiftIn(accumulator: u32, k: nat, v: nat): u32
    requires k <= 32 && v < Pow2(k)
  {
    ShiftLeftClears(accumulator, k);
    ShiftLeft(accumulator, k) + v
  }

  /** `accumulator >> k`. */
  function ShiftRight(accumulator: u32, k: nat): u32 {
    DivideShrinks(accumulator, Pow2(k));
    accumulator / Pow2(k)
  }

  lemma DivideShrinks(a: nat, b: nat)
    requires b > 0
    ensures 0 <= a / b <= a
  {
    var q, r := a / b, a % b;
    assert a == b * q + r;
    MulMonotone(q, 1, b);
    if q < 0 {
      MulMonotone(b, q, -1);
      assert false;
    }
  }

  lemma MulMonotone(m: int, a: int, b: int)
    requires a <= b
    ensures m >= 0 ==> m * a <= m * b
  {
    if m >= 0 {
      assert m * (b - a) >= 0;
      assert m * b == m * a + m * (b - a);
    }
  }

  /** The accumulator's low bits are exactly `pending`, whatever has piled up above them. */
  ghost predicate Holds(accumulator: u32, pending: BitString) {
    accumulator % Pow2(|pending|) == Value(pending)
  }

  lemma {:induction false} ZeroBits(n: nat)
    ensures ToBits(0, n) == Zeros(n)
  {
    if n > 0 {
      ZeroBits(n - 1);
    }
  }

  lemma Distribute(p: int, a: int, b: int)
    ensures p * (a + b) == p * a + p * b
  {
  }

  lemma Commute(a: int, b: int)
    ensures a * b == b * a
  {
  }

  lemma Associate(a: int, b: int, c: int)
    ensures (a * b) * c == a * (b * c)
  {
  }

  lemma Positive(a: nat, b: nat)
    requires a > 0 && b > 0
    ensures a * b > 0
  {
    MulMonotone(a, 1, b);
  }

  /** Dividing and reducing a number written as `p * a + v`. */
  lemma Scaled(p: nat, a: nat, v: nat, m: nat)
    requires v < p && m > 0
    ensures (p * a + v) / p == a && (p * a + v) % p == v
    ensures p * m > 0 && (p * a + v) % (p * m) == p * (a % m) + v
  {
    UniqueDivision(p * a + v, p, a, v);
    ScaledRemainder(p, a, v, m, a / m, a % m);
  }

  lemma ScaledRemainder(p: nat, a: nat, v: nat, m: nat, q: nat, r: nat)
    requires v < p && m > 0 && a == m * q + r && r < m
    ensures p * m > 0 && (p * a + v) % (p * m) == p * r + v
  {
    Positive(p, m);
    Distribute(p, m * q, r);
    Associate(p, m, q);
    MulMonotone(p, r + 1, m);
    Distribute(p, r, 1);
    UniqueDivision(p * a + v, p * m, q, p * r + v);
  }

  lemma DivMod(x: nat, m: nat)
    requires m > 0
    ensures x == m * (x / m) + x % m
  {
  }

  lemma ModOfMod(x: nat, m: nat, k: nat)
    requires m > 0 && k > 0
    ensures m * k > 0 && x % (m * k) % m == x % m
  {
    var a, v := x / m, x % m;
    assert x == m * a + v;
    Scaled(m, a, v, k);
    Scaled(m, a % k, v, k);
  }

  lemma ShiftLeftClears(accumulator: u32, k: nat)
    requires k <= 32
    ensures ShiftLeft(accumulator, k) == Pow2(k) * (accumulator % Pow2(32 - k))
    ensures ShiftLeft(accumulator, k) + Pow2(k) <= WORD
  {
    hide Pow2;
    var p, m := Pow2(k), Pow2(32 - k);
    WordIsPow2();
    Pow2Add(k, 32 - k);
    Scaled(p, accumulator, 0, m);
    MulMonotone(p, accumulator % m + 1, m);
    Distribute(p, accumulator % m, 1);
    Commute(accumulator, p);
  }

  /** Shifting in `k` bits appends them to the pending ones, as long as all of them still fit the
      word; bits that were already spent may fall off the top. */
  lemma Absorb(accumulator: u32, pending: BitString, k: nat, v: nat)
    requires Holds(accumulator, pending) && |pending| + k <= 32 && v < Pow2(k)
    ensures Holds(ShiftIn(accumulator, k, v), pending + ToBits(v, k))
  {
    hide Value, ToBits, Pow2, ShiftLeft;
    var n, p := |pending|, Pow2(k);
    var kept := accumulator % Pow2(32 - k);
    ShiftLeftClears(accumulator, k);
    Pow2Add(n, 32 - k - n);
    ModOfMod(accumulator, Pow2(n), Pow2(32 - k - n));
    Pow2Add(k, n);
    Scaled(p, kept, v, Pow2(n));
    ValueAppend(pending, ToBits(v, k));
    ValueOfBits(v, k);
    assert k + n == n + k;
    assert p * Value(pending) == Value(pending) * p;
  }

  lemma SplitDivision(x: nat, p: nat, m: nat, top: nat, low: nat)
    requires p > 0 && m > 0 && p * m > 0 && x % (p * m) == top * p + low && top < m && low < p
    ensures x / p % m == top && x % p == low
  {
    var q := x / (p * m);
    DivMod(x, p * m);
    Commute(top, p);
    Associate(p, m, q);
    Distribute(p, m * q, top);
    assert x == p * (m * q + top) + low;
    UniqueDivision(x, p, m * q + top, low);
    UniqueDivision(m * q + top, m, q, top);
  }

  /** The top `w` pending bits are read off by a shift and a mask, and the rest stay pending. */
  lemma Emit(accumulator: u32, pending: BitString, w: nat)
    requires Holds(accumulator, pending) && w <= |pending|
    ensures ShiftRight(accumulator, |pending| - w) % Pow2(w) == Value(pending[..w])
    ensures Holds(accumulator, pending[w..])
  {
    hide Value, Pow2, ShiftLeft;
    var n := |pending|;
    var p, m := Pow2(n - w), Pow2(w);
    var top, low := Value(pending[..w]), Value(pending[w..]);
    assert pending == pending[..w] + pending[w..];
    ValueAppend(pending[..w], pending[w..]);
    ValueBound(pending[..w]);
    ValueBound(pending[w..]);
    Pow2Add(n - w, w);
    SplitDivision(accumulator, p, m, top, low);
  }

  /** What is left is padded with zero bits by one last shift. */
  lemma Pad(accumulator: u32, pending: BitString, w: nat)
    requires Holds(accumulator, pending) && |pending| <= w <= 32
    ensures ShiftLeft(accumulator, w - |pending|) % Pow2(w) == Value(pending + Zeros(w - |pending|))
  {
    hide Value, Pow2, ShiftLeft, ToBits;
    var k := w - |pending|;
    Absorb(accumulator, pending, k, 0);
    ZeroBits(k);
  }

  lemma UniqueDivision(x: nat, m: nat, q: nat, r: nat)
    requires m > 0 && x == m * q + r && r < m
    ensures x / m == q && x % m == r
  {
    var q', r' := x / m, x % m;
    assert x == m * q' + r';
    if q' < q {
      MulMonotone(m, q' + 1, q);
      assert false;
    } else if q < q' {
      MulMonotone(m, q + 1, q');
      assert false;
    }
  }

  // ---- One step of a streaming loop ----

  /** Taking in one more digit of width `from`: the groups so far stand, and the bits pending
      grow by it. */
  lemma Intake(from: nat, w: nat, digits: seq<nat>, digit: nat)
    requires w > 0
    ensures var pending := Leftover(w, BitsOf(from, digits)) + ToBits(digit, from);
      && Groups(w, BitsOf(from, digits + [digit])) == Groups(w, BitsOf(from, digits)) + Groups(w, pending)
      && Leftover(w, BitsOf(from, digits + [digit])) == Leftover(w, pending)
  {
    hide BitsOf, Groups, Leftover, ToBits;
    BitsOfAppend(from, digits, [digit]);
    OneDigit(from, digit);
    GroupsAppend(w, BitsOf(from, digits), ToBits(digit, from));
  }

  /** Spending one whole group of the pending bits. */
  lemma Spend(w: nat, pending: BitString)
    requires 0 < w <= |pending|
    ensures Groups(w, pending) == [Value(pending[..w])] + Groups(w, pending[w..])
    ensures Leftover(w, pending) == Leftover(w, pending[w..])
  {
  }
}
