/** White space, and text as bytes: UTF-8 (RFC 3629), and what becomes of it when it is cut short. */
module Text {
  import opened Common

  // ---- White space ----

  /** The characters with Unicode's White_Space property. */
  const WHITE_SPACE := {
    '\t', '\n', '\U{000B}', '\U{000C}', '\r', ' ', '\U{0085}', '\U{00A0}', '\U{1680}', '\U{2000}', '\U{2001}',
    '\U{2002}', '\U{2003}', '\U{2004}', '\U{2005}', '\U{2006}', '\U{2007}', '\U{2008}', '\U{2009}', '\U{200A}',
    '\U{2028}', '\U{2029}', '\U{202F}', '\U{205F}', '\U{3000}'}

  predicate IsWhiteSpace(c: char) {
    var n := c as int;
    || 0x09 <= n <= 0x0D || n == 0x20 || n == 0x85 || n == 0xA0 || n == 0x1680 || 0x2000 <= n <= 0x200A
    || n == 0x2028 || n == 0x2029 || n == 0x202F || n == 0x205F || n == 0x3000
  }

  lemma WhiteSpaceIs(c: char)
    ensures IsWhiteSpace(c) <==> c in WHITE_SPACE
  {
  }

  /** Bytes as text, one character each. */
  function AsText(b: seq<byte>): string {
    seq(|b|, i requires 0 <= i < |b| => b[i] as char)
  }

  // ---- UTF-8 ----

  predicate IsContinuation(b: byte) {
    0x80 <= b < 0xC0
  }

  /** At least `n` bytes after the first, the first `n` of them continuation bytes. */
  predicate Continues(b: seq<byte>, n: nat) {
    |b| > n && forall i :: 1 <= i <= n ==> IsContinuation(b[i])
  }

  /** The bytes of the first character, or 0 when there is none. */
  function CharLength(b: seq<byte>): (n: nat)
    ensures n <= |b|
  {
    if b == [] then 0
    else if b[0] < 0x80 then 1
    else if 0xC2 <= b[0] < 0xE0 then if Continues(b, 1) then 2 else 0
    else if 0xE0 <= b[0] < 0xF0 then
      if Continues(b, 2) && (b[0] == 0xE0 ==> b[1] >= 0xA0) && (b[0] == 0xED ==> b[1] < 0xA0) then 3 else 0
    else if 0xF0 <= b[0] < 0xF5 then
      if Continues(b, 3) && (b[0] == 0xF0 ==> b[1] >= 0x90) && (b[0] == 0xF4 ==> b[1] < 0x90) then 4 else 0
    else 0
  }

  predicate Utf8(b: seq<byte>) {
    b == [] || (CharLength(b) > 0 && Utf8(b[CharLength(b)..]))
  }

  // ---- What UTF-8 spells ----

  /** The code points that are characters: all but the surrogates. */
  predicate IsScalar(n: nat) {
    n < 0xD800 || 0xE000 <= n < 0x11_0000
  }

  function Trailing(n: nat): byte {
    0x80 + n % 0x40
  }

  /** The bytes of a character, by the table in section 3 of RFC 3629. */
  function Encoded(n: nat): (b: seq<byte>)
    requires IsScalar(n)
    ensures |b| > 0
  {
    if n < 0x80 then [n]
    else if n < 0x800 then [0xC0 + n / 0x40, Trailing(n)]
    else if n < 0x1_0000 then [0xE0 + n / 0x1000, Trailing(n / 0x40), Trailing(n)]
    else [0xF0 + n / 0x4_0000, Trailing(n / 0x1000), Trailing(n / 0x40), Trailing(n)]
  }

  function Spelt(text: seq<nat>): seq<byte>
    requires forall i :: 0 <= i < |text| ==> IsScalar(text[i])
  {
    if text == [] then [] else Encoded(text[0]) + Spelt(text[1..])
  }

  lemma EncodedIsChar(n: nat, more: seq<byte>)
    requires IsScalar(n)
    ensures CharLength(Encoded(n) + more) == |Encoded(n)|
  {
    assert forall i :: 0 <= i < |Encoded(n)| ==> (Encoded(n) + more)[i] == Encoded(n)[i];
  }

  /** Six bits more. */
  function Combined(n: nat, b: byte): (r: nat)
    requires IsContinuation(b)
    ensures r / 0x40 == n && Trailing(r) == b && 0x40 * n <= r < 0x40 * n + 0x40
  {
    n * 0x40 + (b - 0x80)
  }

  lemma TwoBytes(b: seq<byte>) returns (n: nat)
    requires CharLength(b) == 2
    ensures IsScalar(n) && Encoded(n) == [b[0], b[1]]
  {
    n := Combined(b[0] - 0xC0, b[1]);
    hide Trailing, Combined;
  }

  lemma ThreeBytes(b: seq<byte>) returns (n: nat)
    requires CharLength(b) == 3
    ensures IsScalar(n) && Encoded(n) == [b[0], b[1], b[2]]
  {
    var m := Combined(b[0] - 0xE0, b[1]);
    n := Combined(m, b[2]);
    hide Trailing, Combined;
    assert n / 0x1000 == n / 0x40 / 0x40;
  }

  lemma FourBytes(b: seq<byte>) returns (n: nat)
    requires CharLength(b) == 4
    ensures IsScalar(n) && Encoded(n) == [b[0], b[1], b[2], b[3]]
  {
    var l := Combined(b[0] - 0xF0, b[1]);
    var m := Combined(l, b[2]);
    n := Combined(m, b[3]);
    hide Trailing, Combined;
    assert n / 0x1000 == n / 0x40 / 0x40 && n / 0x4_0000 == n / 0x1000 / 0x40;
  }

  /** The character that the bytes start with. */
  lemma CharIsEncoded(b: seq<byte>) returns (n: nat)
    requires CharLength(b) > 0
    ensures IsScalar(n) && Encoded(n) == b[..CharLength(b)]
  {
    match CharLength(b)
    case 1 =>
      n := b[0];
    case 2 =>
      n := TwoBytes(b);
    case 3 =>
      n := ThreeBytes(b);
    case _ =>
      n := FourBytes(b);
  }

  /** Bytes are UTF-8 exactly when they spell characters. */
  lemma {:induction false} Utf8Iff(b: seq<byte>)
    ensures Utf8(b)
      <==> exists text: seq<nat> :: (forall i :: 0 <= i < |text| ==> IsScalar(text[i])) && Spelt(text) == b
  {
    if Utf8(b) {
      var text := SpeltFrom(b);
    } else {
      forall text: seq<nat> | forall i :: 0 <= i < |text| ==> IsScalar(text[i]) ensures Spelt(text) != b {
        SpeltIsUtf8(text);
      }
    }
  }

  lemma {:induction false} SpeltFrom(b: seq<byte>) returns (text: seq<nat>)
    requires Utf8(b)
    ensures (forall i :: 0 <= i < |text| ==> IsScalar(text[i])) && Spelt(text) == b
    decreases |b|
  {
    hide CharLength, IsScalar, Encoded;
    text := [];
    if b != [] {
      var n := CharIsEncoded(b);
      var rest := SpeltFrom(b[CharLength(b)..]);
      text := [n] + rest;
      assert text[1..] == rest && text[0] == n;
      assert b == b[..CharLength(b)] + b[CharLength(b)..];
    }
  }

  lemma {:induction false} SpeltIsUtf8(text: seq<nat>)
    requires forall i :: 0 <= i < |text| ==> IsScalar(text[i])
    ensures Utf8(Spelt(text))
  {
    hide CharLength, IsScalar, Encoded;
    if text != [] {
      var rest := Spelt(text[1..]);
      EncodedIsChar(text[0], rest);
      SpeltIsUtf8(text[1..]);
      assert (Encoded(text[0]) + rest)[|Encoded(text[0])|..] == rest;
    }
  }

  // ---- Cut text ----

  /** A cut at this place leaves the beginning of a character behind. */
  predicate WithinCharacter(b: seq<byte>, n: nat) {
    n < |b| && IsContinuation(b[n])
  }

  lemma {:induction false} AsciiIsUtf8(b: seq<byte>)
    requires forall i :: 0 <= i < |b| ==> b[i] < 0x80
    ensures Utf8(b)
  {
    if b != [] {
      AsciiIsUtf8(b[1..]);
    }
  }

  lemma CharGoesOn(b: seq<byte>, more: seq<byte>)
    requires CharLength(b) > 0
    ensures CharLength(b + more) == CharLength(b)
  {
    assert forall i :: 0 <= i < |b| ==> (b + more)[i] == b[i];
  }

  lemma CharStarts(b: seq<byte>)
    requires CharLength(b) > 0
    ensures !IsContinuation(b[0]) && forall i :: 1 <= i < CharLength(b) ==> IsContinuation(b[i])
  {
  }

  /** Characters of one first byte are of one length. */
  lemma CharLengthIsFixed(a: seq<byte>, b: seq<byte>)
    requires CharLength(a) > 0 && CharLength(b) > 0 && a[0] == b[0]
    ensures CharLength(a) == CharLength(b)
  {
  }

  /** Text cut short and followed by other text is text exactly when it was not cut within a
      character. */
  lemma {:induction false} CutTextIff(b: seq<byte>, n: nat, more: seq<byte>)
    requires Utf8(b) && Utf8(more) && n <= |b|
    ensures Utf8(b[..n] + more) <==> !WithinCharacter(b, n)
    decreases |b|
  {
    hide CharLength;
    var m, joined := CharLength(b), b[..n] + more;
    if b != [] {
      CharStarts(b);
    }
    if n == 0 {
      assert joined == more;
    } else if n < m {
      if CharLength(joined) > 0 {
        CharLengthIsFixed(b, joined);
        CharStarts(joined);
        assert joined[n] == more[0];
        CharStarts(more);
        assert false;
      }
    } else {
      CutTextIff(b[m..], n - m, more);
      assert b[..n] == b[..m] + b[m..n] && b[m..][..n - m] == b[m..n];
      assert joined == b[..m] + (b[m..n] + more) && joined[m..] == b[m..n] + more;
      FirstCharAlone(b);
      CharGoesOn(b[..m], b[m..n] + more);
    }
  }

  lemma FirstCharAlone(b: seq<byte>)
    requires CharLength(b) > 0
    ensures CharLength(b[..CharLength(b)]) == CharLength(b)
  {
  }
}
