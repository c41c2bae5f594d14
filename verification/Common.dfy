/** Byte-level vocabulary shared by the models: fixed-width integers, byte orders,
    joined sequences and finite ranges. */
module Common {

  type byte = x: int | 0 <= x < 0x100
  type u16 = x: int | 0 <= x < 0x1_0000
  type u32 = x: int | 0 <= x < 0x1_0000_0000

  datatype Option<+T> = None | Some(value: T)

  datatype Result<+T, +E> = Ok(value: T) | Err(error: E)

  /** What a fixed-width write throws when its value does not fit. */
  datatype RangeError = RangeError

  function Min(a: int, b: int): int {
    if a <= b then a else b
  }

  // ---- Byte orders ----

  function U16Be(n: u16): (b: seq<byte>)
    ensures |b| == 2
  {
    [n / 0x100, n % 0x100]
  }

  function ReadU16Be(b: seq<byte>): u16
    requires |b| >= 2
  {
    b[0] as int * 0x100 + b[1]
  }

  function U32Be(n: u32): (b: seq<byte>)
    ensures |b| == 4
  {
    U16Be(n / 0x1_0000) + U16Be(n % 0x1_0000)
  }

  function ReadU32Be(b: seq<byte>): u32
    requires |b| >= 4
  {
    ReadU16Be(b[..2]) as int * 0x1_0000 + ReadU16Be(b[2..4])
  }

  function U16Le(n: u16): (b: seq<byte>)
    ensures |b| == 2
  {
    [n % 0x100, n / 0x100]
  }

  function ReadU16Le(b: seq<byte>): u16
    requires |b| >= 2
  {
    b[0] + b[1] as int * 0x100
  }

  function U32Le(n: u32): (b: seq<byte>)
    ensures |b| == 4
  {
    U16Le(n % 0x1_0000) + U16Le(n / 0x1_0000)
  }

  function ReadU32Le(b: seq<byte>): u32
    requires |b| >= 4
  {
    ReadU16Le(b[..2]) + ReadU16Le(b[2..4]) as int * 0x1_0000
  }

  lemma U16BeReads(n: u16)
    ensures ReadU16Be(U16Be(n)) == n
  {
  }

  lemma U32BeReads(n: u32)
    ensures ReadU32Be(U32Be(n)) == n
  {
    var b := U32Be(n);
    assert b[..2] == U16Be(n / 0x1_0000) && b[2..4] == U16Be(n % 0x1_0000);
    U16BeReads(n / 0x1_0000);
    U16BeReads(n % 0x1_0000);
  }

  lemma U16BeCanonical(b: seq<byte>)
    requires |b| == 2
    ensures U16Be(ReadU16Be(b)) == b
  {
  }

  /** Four big-endian bytes are the only spelling of the number they read as. */
  lemma U32BeCanonical(b: seq<byte>)
    requires |b| == 4
    ensures U32Be(ReadU32Be(b)) == b
  {
    var hi, lo := ReadU16Be(b[..2]), ReadU16Be(b[2..4]);
    assert ReadU32Be(b) / 0x1_0000 == hi && ReadU32Be(b) % 0x1_0000 == lo;
    U16BeCanonical(b[..2]);
    U16BeCanonical(b[2..4]);
    assert b == b[..2] + b[2..4];
  }

  lemma U16LeReads(n: u16)
    ensures ReadU16Le(U16Le(n)) == n
  {
  }

  lemma U32LeReads(n: u32)
    ensures ReadU32Le(U32Le(n)) == n
  {
    var b := U32Le(n);
    assert b[..2] == U16Le(n % 0x1_0000) && b[2..4] == U16Le(n / 0x1_0000);
    U16LeReads(n / 0x1_0000);
    U16LeReads(n % 0x1_0000);
  }

  // ---- Joined sequences ----

  /** The parts, one after another. */
  function Concat<T>(parts: seq<seq<T>>): seq<T> {
    if parts == [] then [] else parts[0] + Concat(parts[1..])
  }

  lemma {:induction false} ConcatAppend<T>(a: seq<seq<T>>, b: seq<seq<T>>)
    ensures Concat(a + b) == Concat(a) + Concat(b)
  {
    if a == [] {
      assert a + b == b;
    } else {
      assert (a + b)[1..] == a[1..] + b;
      ConcatAppend(a[1..], b);
      assert Concat(a + b) == a[0] + (Concat(a[1..]) + Concat(b));
    }
  }

  lemma ConcatSnoc<T>(a: seq<seq<T>>, x: seq<T>)
    ensures Concat(a + [x]) == Concat(a) + x
  {
    ConcatAppend(a, [x]);
    assert Concat([x]) == x + Concat<T>([]);
  }

  // ---- Finite ranges ----

  function Range(n: nat): (s: set<nat>)
    ensures forall i: nat :: i in s <==> i < n
  {
    if n == 0 then {} else Range(n - 1) + {n - 1}
  }

  lemma {:induction false} RangeSize(n: nat)
    ensures |Range(n)| == n
  {
    if n > 0 {
      RangeSize(n - 1);
    }
  }

  /** Pigeonhole: a set of indices below `n` has `n` members only if it is all of them. */
  lemma FullRange(s: set<nat>, n: nat)
    requires s <= Range(n)
    ensures |s| <= n
    ensures |s| == n <==> s == Range(n)
  {
    RangeSize(n);
    SubsetSize(s, Range(n));
  }

  lemma SubsetSize<T>(a: set<T>, b: set<T>)
    requires a <= b
    ensures |a| <= |b|
    ensures |a| == |b| <==> a == b
  {
    var rest := b - a;
    assert b == a + rest && a !! rest;
    if |a| == |b| {
      assert |rest| == 0;
    }
  }

  /** A number above all of these. */
  lemma {:induction false} Fresh(taken: set<nat>) returns (id: nat)
    ensures forall d :: d in taken ==> d < id
    decreases |taken|
  {
    if taken == {} {
      id := 0;
    } else {
      var d :| d in taken;
      id := Fresh(taken - {d});
      assert forall x :: x in taken ==> x == d || x in taken - {d};
      if id <= d {
        id := d + 1;
      }
    }
  }
}
