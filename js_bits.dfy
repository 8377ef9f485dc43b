/** JavaScript's bitwise operators as they act on the hex digits the prefix
    code reads. A bitwise operator works on the operand's 32-bit integer
    form, so digits and masks are `bv32` here; every value that occurs is a
    small non-negative number, so the sign bit never matters. */
module JsBits {
  import opened HexText

  /** A digit value as a 32-bit operand (written as a table so that the
      solver never converts between integers and bit-vectors). */
  function ToInt32(v: nat): (b: bv32)
    requires v < 16
    ensures b < 16 && FromInt32(b) == v
  {
    if v == 0 then 0 else if v == 1 then 1 else if v == 2 then 2 else if v == 3 then 3 else if v == 4 then 4 else if v == 5 then 5 else if v == 6 then 6 else if v == 7 then 7 else if v == 8 then 8 else if v == 9 then 9 else if v == 10 then 10 else if v == 11 then 11 else if v == 12 then 12 else if v == 13 then 13 else if v == 14 then 14 else 15
  }

  /** A 32-bit value below 16 as a digit value. */
  function FromInt32(b: bv32): (v: nat)
    requires b < 16
    ensures v < 16
  {
    if b == 0 then 0 else if b == 1 then 1 else if b == 2 then 2 else if b == 3 then 3 else if b == 4 then 4 else if b == 5 then 5 else if b == 6 then 6 else if b == 7 then 7 else if b == 8 then 8 else if b == 9 then 9 else if b == 10 then 10 else if b == 11 then 11 else if b == 12 then 12 else if b == 13 then 13 else if b == 14 then 14 else 15
  }

  lemma Int32RoundTrip(b: bv32)
    requires b < 16
    ensures ToInt32(FromInt32(b)) == b
  {
  }

  /** `parseInt(s[i], 16)` as an operand of `&`: the digit's value, or 0 when
      `s[i]` is missing or not a hex digit (`parseInt` gives NaN, which a
      bitwise operator turns into 0). */
  function NibbleAt(s: string, i: int): (n: bv32)
    ensures n < 16
    ensures 0 <= i < |s| && IsHexChar(s[i]) ==> FromInt32(n) == HexValue(s[i])
    ensures !(0 <= i < |s| && IsHexChar(s[i])) ==> n == 0
  {
    if 0 <= i < |s| && IsHexChar(s[i]) then ToInt32(HexValue(s[i])) else 0
  }

  /** Reading a digit is not affected by what follows it. */
  lemma NibbleAtAppend(s: string, t: string, i: nat)
    requires i < |s|
    ensures NibbleAt(s + t, i) == NibbleAt(s, i)
  {
    assert (s + t)[i] == s[i];
  }

  /** Reading digit i of a tail is reading digit k + i of the whole. */
  lemma NibbleAtDrop(s: string, k: nat, i: nat)
    requires k <= |s|
    ensures NibbleAt(s[k..], i) == NibbleAt(s, k + i)
  {
  }

  /** Lowering a digit does not change its value. */
  lemma NibbleAtLower(s: string, i: nat)
    ensures NibbleAt(Lower(s), i) == NibbleAt(s, i)
  {
    if i < |s| && IsHexChar(s[i]) {
      assert Lower(s)[i] == LowerChar(s[i]);
    }
  }

  /** `n.toString(16)` for a value below 16. */
  function DigitString(n: bv32): (s: string)
    requires n < 16
    ensures |s| == 1 && IsLowerHexChar(s[0]) && HexValue(s[0]) == FromInt32(n)
    ensures NibbleAt(s, 0) == n
  {
    Int32RoundTrip(n);
    [HexDigit(FromInt32(n))]
  }

  /** Bit `b` (0 is the least significant) of a nibble. */
  predicate BitSet(n: bv32, b: nat)
    requires b < 4
  {
    ((n >> b) & 1) == 1
  }

  /** The k = 3 shortcut of the storage prefix: the address digit masked
      with 14 and the hash digit masked with 1. The top three bits come from
      the address, the last one from the hash. */
  function ShortcutNibble(a: bv32, h: bv32): (x: bv32)
    requires a < 16 && h < 16
    ensures x < 16
    ensures (x >> 1) == (a >> 1) && (x & 1) == (h & 1)
  {
    (a & 14) | (h & 1)
  }

  /** The general-path partial digit of the storage prefix for r = k % 4
      remaining bits, with the address mask `(1 << 4) - 1 - (1 << (4 - r))`
      as the code computes it. Reading the bits from the top: the highest
      r - 1 bits are the address's, bit 4 - r is always cleared, and the
      lowest 4 - r bits are the address's OR the hash's. */
  function WrittenNibble(a: bv32, h: bv32, r: nat): (x: bv32)
    requires a < 16 && h < 16 && 1 <= r <= 3
    ensures x < 16
    ensures (x >> (5 - r)) == (a >> (5 - r))
    ensures !BitSet(x, 4 - r)
    ensures (x & ((1 << (4 - r)) - 1)) == ((a | h) & ((1 << (4 - r)) - 1))
  {
    (a & ((1 << 4) - 1 - (1 << (4 - r)))) | (h & ((1 << (4 - r)) - 1))
  }
}
