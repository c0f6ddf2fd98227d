/**
 * Hex rendering of a raw error-corrected payload: every byte is formatted
 * with `%02hhx` (two lower-case, zero-padded hex digits) and the pieces are
 * joined in payload order.
 */
module Hex {
  import opened Digits

  /** Swift's `UInt8`, the element type of the payload `Data`. */
  newtype UInt8 = x: int | 0 <= x < 0x100

  predicate IsHexDigit(c: char) {
    '0' <= c <= '9' || 'a' <= c <= 'f'
  }

  /** The lower-case hex digit for a nibble. */
  function HexDigit(n: nat): (c: char)
    requires n < 16
    ensures IsHexDigit(c)
  {
    if n < 10 then DigitChar(n) else ('a' as int + n - 10) as char
  }

  /** The nibble a hex digit stands for. */
  function DigitValue(c: char): (n: nat)
    requires IsHexDigit(c)
    ensures n < 16 && HexDigit(n) == c
  {
    if c <= '9' then c as int - '0' as int else c as int - 'a' as int + 10
  }

  /** `String(format: "%02hhx", b)`: high nibble first, zero-padded to two digits. */
  function ByteHex(b: UInt8): (s: string)
    ensures |s| == 2 && IsHexDigit(s[0]) && IsHexDigit(s[1])
    ensures DigitValue(s[0]) * 16 + DigitValue(s[1]) == b as int
  {
    [HexDigit(b as int / 16), HexDigit(b as int % 16)]
  }

  /** `payload.map { String(format: "%02hhx", $0) }.joined()`. */
  function HexPayload(payload: seq<UInt8>): (s: string)
    ensures |s| == 2 * |payload|
    ensures forall k :: 0 <= k < |s| ==> IsHexDigit(s[k])
  {
    if payload == [] then "" else ByteHex(payload[0]) + HexPayload(payload[1..])
  }

  /** Byte `i` of the payload is characters `2i` (high nibble) and `2i+1` (low nibble) of its rendering. */
  lemma {:induction false} HexAt(payload: seq<UInt8>, i: nat)
    requires i < |payload|
    ensures HexPayload(payload)[2 * i] == HexDigit(payload[i] as int / 16)
    ensures HexPayload(payload)[2 * i + 1] == HexDigit(payload[i] as int % 16)
    decreases i
  {
    if i > 0 {
      HexAt(payload[1..], i - 1);
    }
  }

  /** Hex digits are ordered as the nibbles they stand for; in particular distinct nibbles have distinct digits. */
  lemma HexDigitOrder(a: nat, b: nat)
    requires a < 16 && b < 16
    ensures HexDigit(a) < HexDigit(b) <==> a < b
  {
  }

  /** A byte is its high nibble times 16 plus its low nibble. */
  lemma Nibbles(x: UInt8)
    ensures x as int == 16 * (x as int / 16) + x as int % 16
    ensures x as int / 16 < 16
  {
  }

  /** Different payloads are rendered differently. */
  lemma HexInjective(p: seq<UInt8>, q: seq<UInt8>)
    requires HexPayload(p) == HexPayload(q)
    ensures p == q
  {
    assert |p| == |q|;
    forall i | 0 <= i < |p|
      ensures p[i] == q[i]
    {
      HexAt(p, i);
      HexAt(q, i);
      Nibbles(p[i]);
      Nibbles(q[i]);
      HexDigitOrder(p[i] as int / 16, q[i] as int / 16);
      HexDigitOrder(q[i] as int / 16, p[i] as int / 16);
      HexDigitOrder(p[i] as int % 16, q[i] as int % 16);
      HexDigitOrder(q[i] as int % 16, p[i] as int % 16);
    }
  }

  /** Lexicographic order on sequences under the element order `less`: a proper prefix comes first. */
  predicate Before<T(==)>(p: seq<T>, q: seq<T>, less: (T, T) -> bool)
    decreases |p|
  {
    if p == [] then q != []
    else q != [] && (less(p[0], q[0]) || (p[0] == q[0] && Before(p[1..], q[1..], less)))
  }

  /** Bytes by value. */
  predicate ByteLess(x: UInt8, y: UInt8) {
    x < y
  }

  /** Characters by code. */
  predicate CharLess(a: char, b: char) {
    a < b
  }

  /** A byte is smaller than another exactly when its two hex digits come first. */
  lemma ByteHexOrder(x: UInt8, y: UInt8)
    ensures x < y <==> Before(ByteHex(x), ByteHex(y), CharLess)
  {
    var hx, lx, hy, ly := x as int / 16, x as int % 16, y as int / 16, y as int % 16;
    Nibbles(x);
    Nibbles(y);
    HexDigitOrder(hy, hx);
    HexDigitOrder(hx, hy);
    HexDigitOrder(lx, ly);
    var sx, sy := ByteHex(x), ByteHex(y);
    assert sx[1..][1..] == [] && sy[1..][1..] == [];
    assert Before(sx[1..], sy[1..], CharLess) <==> lx < ly;
  }

  /** Comparing two-character blocks: the first block decides unless the blocks are equal. */
  lemma BeforeBlocks(a: string, s: string, b: string, t: string)
    requires |a| == 2 && |b| == 2
    ensures Before(a + s, b + t, CharLess) <==> Before(a, b, CharLess) || (a == b && Before(s, t, CharLess))
  {
    assert (a + s)[0] == a[0] && (b + t)[0] == b[0];
    assert (a + s)[1..] == [a[1]] + s && (b + t)[1..] == [b[1]] + t;
    assert ([a[1]] + s)[1..] == s && ([b[1]] + t)[1..] == t;
    assert a[1..] == [a[1]] && b[1..] == [b[1]];
    assert !Before([a[1]][1..], [b[1]][1..], CharLess);
    if a[0] == b[0] && a[1] == b[1] {
      assert a == b;
    }
  }

  /** The rendering preserves order: payloads compare as their hex strings do. */
  lemma {:induction false} HexPreservesOrder(p: seq<UInt8>, q: seq<UInt8>)
    ensures Before(p, q, ByteLess) <==> Before(HexPayload(p), HexPayload(q), CharLess)
    decreases |p|
  {
    if p != [] && q != [] {
      HexPreservesOrder(p[1..], q[1..]);
      ByteHexOrder(p[0], q[0]);
      BeforeBlocks(ByteHex(p[0]), HexPayload(p[1..]), ByteHex(q[0]), HexPayload(q[1..]));
      if ByteHex(p[0]) == ByteHex(q[0]) {
        assert ByteHex(p[0])[0] == ByteHex(q[0])[0];
      }
    }
  }

  /** The payload bytes FF 00 AB render as `ff00ab`. */
  lemma BinaryPayloadExample()
    ensures HexPayload([0xFF, 0x00, 0xAB]) == "ff00ab"
  {
  }
}
