/** The JavaScript string built-ins the address code relies on, over
    `string` (= `seq<char>`): `toLowerCase`, `slice`, `repeat`, and the
    one-character `parseInt(c, 16)` / `toString(16)` conversions. */
module HexText {

  predicate IsUpper(c: char) { 'A' <= c <= 'Z' }

  /** A character `parseInt(c, 16)` accepts, in either case. */
  predicate IsHexChar(c: char) { '0' <= c <= '9' || 'a' <= c <= 'f' || 'A' <= c <= 'F' }

  /** A character `toString(16)` can produce. */
  predicate IsLowerHexChar(c: char) { '0' <= c <= '9' || 'a' <= c <= 'f' }

  predicate IsHex(s: string) { forall i :: 0 <= i < |s| ==> IsHexChar(s[i]) }

  predicate IsLowerHex(s: string) { forall i :: 0 <= i < |s| ==> IsLowerHexChar(s[i]) }

  /** The value of one hexadecimal digit. */
  function HexValue(c: char): (v: nat)
    requires IsHexChar(c)
    ensures v < 16
  {
    if '0' <= c <= '9' then c as nat - '0' as nat
    else if 'a' <= c <= 'f' then c as nat - 'a' as nat + 10
    else c as nat - 'A' as nat + 10
  }

  /** `v.toString(16)` for a value below 16: one lower-case digit. */
  function HexDigit(v: nat): (c: char)
    requires v < 16
    ensures IsLowerHexChar(c) && HexValue(c) == v
  {
    if v < 10 then ('0' as int + v) as char else ('a' as int + v - 10) as char
  }

  /** `toLowerCase` on one character (ASCII letters only). */
  function LowerChar(c: char): (d: char)
    ensures !IsUpper(d)
    ensures !IsUpper(c) ==> d == c
    ensures IsHexChar(c) ==> IsLowerHexChar(d) && HexValue(d) == HexValue(c)
  {
    if IsUpper(c) then (c as int - 'A' as int + 'a' as int) as char else c
  }

  /** `s.toLowerCase()`: the same length, every character lowered. */
  function Lower(s: string): (r: string)
    ensures |r| == |s|
    ensures forall i :: 0 <= i < |s| ==> r[i] == LowerChar(s[i])
  {
    seq(|s|, i requires 0 <= i < |s| => LowerChar(s[i]))
  }

  lemma LowerAppend(a: string, b: string)
    ensures Lower(a + b) == Lower(a) + Lower(b)
  {
    assert forall i :: 0 <= i < |a + b| ==> Lower(a + b)[i] == (Lower(a) + Lower(b))[i];
  }

  /** Lowering commutes with taking a sub-sequence. */
  lemma LowerSlice(s: string, i: nat, j: nat)
    requires i <= j <= |s|
    ensures Lower(s[i..j]) == Lower(s)[i..j]
  {
    assert forall k :: 0 <= k < j - i ==> Lower(s[i..j])[k] == Lower(s)[i..j][k];
  }

  /** A string without upper-case letters is a fixed point of lowering. */
  lemma LowerOfNoUpper(s: string)
    requires forall i :: 0 <= i < |s| ==> !IsUpper(s[i])
    ensures Lower(s) == s
  {
    assert forall k :: 0 <= k < |s| ==> Lower(s)[k] == s[k];
  }

  /** Lowering any hex string yields lower-case hex. */
  lemma LowerOfHex(s: string)
    requires IsHex(s)
    ensures IsLowerHex(Lower(s))
  {
  }

  /** Hex strings are closed under concatenation. */
  lemma HexAppend(a: string, b: string)
    requires IsHex(a) && IsHex(b)
    ensures IsHex(a + b)
  {
    assert forall i :: 0 <= i < |a + b| ==> (a + b)[i] == if i < |a| then a[i] else b[i - |a|];
  }

  function Min(a: nat, b: nat): nat { if a <= b then a else b }

  /** `s.slice(start)` for a non-negative start: clamped, so a start past the
      end gives the empty string. */
  function Drop(s: string, start: nat): (r: string)
    ensures |r| == if start <= |s| then |s| - start else 0
    ensures forall i :: 0 <= i < |r| ==> r[i] == s[start + i]
  {
    if start <= |s| then s[start..] else []
  }

  /** `s.slice(start, end)` for non-negative bounds: both are clamped to the
      length, and an empty range gives the empty string. */
  function Slice(s: string, start: nat, end: nat): (r: string)
    ensures |r| == if start < Min(end, |s|) then Min(end, |s|) - start else 0
    ensures forall i :: 0 <= i < |r| ==> r[i] == s[start + i]
  {
    var from, to := Min(start, |s|), Min(end, |s|);
    if from < to then s[from..to] else []
  }

  /** `c.repeat(n)`. */
  function Repeat(c: char, n: nat): (r: string)
    ensures |r| == n
    ensures forall i :: 0 <= i < n ==> r[i] == c
  {
    seq(n, _ => c)
  }
}
