/** The partial digit of the siloed storage prefix (`getPrefix`, general
    path) as the code computes it and as evidently intended.

    The intent, visible in the k = 3 shortcut (address digit masked with 14,
    hash digit with 1), is that the first k bits of a storage key are the
    address's and the rest the hash's. For r = k % 4 > 0 that needs the
    address mask `(1 << 4) - (1 << (4 - r))`; the code subtracts one more,
    `(1 << 4) - 1 - (1 << (4 - r))`, which clears the last prefix bit and
    lets address bits leak into the hash bits. `WrittenPrefixLastBitIsZero`
    states the consequence for the keys the code derives; `IntendedNibble`,
    `IntendedStorageKey` and `IntendedStorageKeyBits` are the corrected
    definition and its proof. */
module PrefixFinding {
  import opened Wrappers
  import opened HexText
  import opened JsBits
  import opened EvmAddress
  import opened EvmAddressProperties

  /** Bit j of a key read as a bit string, most significant bit of digit 0
      first: bit 3 - j % 4 of digit j / 4. */
  predicate KeyBit(s: string, j: nat) {
    BitSet(NibbleAt(s, j / 4), 3 - j % 4)
  }

  /** The corrected partial digit: the high r bits of the address digit and
      the low 4 - r bits of the hash digit. */
  function IntendedNibble(a: bv32, h: bv32, r: nat): (x: bv32)
    requires a < 16 && h < 16 && 1 <= r <= 3
    ensures x < 16
    ensures (x >> (4 - r)) == (a >> (4 - r))
    ensures (x & ((1 << (4 - r)) - 1)) == (h & ((1 << (4 - r)) - 1))
  {
    (a & ((1 << 4) - (1 << (4 - r)))) | (h & ((1 << (4 - r)) - 1))
  }

  /** The corrected prefix: k / 4 address digits, then the corrected partial
      digit when k % 4 > 0. No special case for k = 3 is needed. */
  function IntendedPrefix(bits: nat, addressStr: string, hashedSuffixKey: string): (r: string)
    ensures 2 + bits / 4 <= |addressStr| ==>
      |r| == bits / 4 + (if bits % 4 > 0 then 1 else 0) &&
      r[..bits / 4] == addressStr[2..2 + bits / 4]
    ensures bits % 4 > 0 ==>
      |r| > 0 && IsLowerHexChar(r[|r| - 1]) &&
      NibbleAt(r, |r| - 1) ==
        IntendedNibble(NibbleAt(addressStr, 2 + bits / 4), NibbleAt(hashedSuffixKey, bits / 4), bits % 4)
  {
    var fullHexChars := bits / 4;
    var remainingBits := bits % 4;
    var prefix := Slice(addressStr, 2, 2 + fullHexChars);
    if remainingBits > 0 then
      prefix + DigitString(IntendedNibble(
        NibbleAt(addressStr, 2 + fullHexChars), NibbleAt(hashedSuffixKey, fullHexChars), remainingBits))
    else prefix
  }

  /** The corrected siloed storage key for prefix bit length `bits`. */
  function IntendedStorageKey(bits: nat, hash: string -> string, addressStr: string, secondaryAddressStr: string)
    : (r: Result<string, AddressError>)
    ensures r.Err? <==> |addressStr| != 42
  {
    if |addressStr| != 42 then Err(InvalidContractStorageAddress)
    else
      var hashedSuffixKey := hash(secondaryAddressStr + addressStr);
      var prefix := IntendedPrefix(bits, addressStr, hashedSuffixKey);
      Ok(Lower(prefix + Drop(hashedSuffixKey, |prefix|)))
  }

  /** Bits at or above position s of a nibble are fixed by the nibble shifted
      right by s. */
  lemma HighBitsAgree(x: bv32, a: bv32, s: nat, b: nat)
    requires x < 16 && a < 16 && s <= b < 4
    requires (x >> s) == (a >> s)
    ensures BitSet(x, b) == BitSet(a, b)
  {
    assert (x >> b) == ((x >> s) >> (b - s));
    assert (a >> b) == ((a >> s) >> (b - s));
  }

  /** Bits below position s of a nibble are fixed by the nibble masked with
      2^s - 1. */
  lemma LowBitsAgree(x: bv32, h: bv32, s: nat, b: nat)
    requires b < s <= 4
    requires (x & ((1 << s) - 1)) == (h & ((1 << s) - 1))
    ensures BitSet(x, b) == BitSet(h, b)
  {
    assert ((x >> b) & 1) == (((x & ((1 << s) - 1)) >> b) & 1);
    assert ((h >> b) & 1) == (((h & ((1 << s) - 1)) >> b) & 1);
  }

  /** The digits of the corrected storage key: the address's, then the
      corrected partial digit, then the hash's. */
  lemma IntendedStorageKeyDigits(bits: nat, hash: string -> string, addressStr: string, secondaryAddressStr: string)
    requires IsEvmAddress(addressStr) && IsDigest(hash(secondaryAddressStr + addressStr)) && bits <= 160
    ensures var r := IntendedStorageKey(bits, hash, addressStr, secondaryAddressStr);
      var h := hash(secondaryAddressStr + addressStr);
      var full, rem := bits / 4, bits % 4;
      r.Ok? && IsShardKey(r.value) &&
      (forall i :: 0 <= i < full ==> NibbleAt(r.value, i) == NibbleAt(addressStr[2..], i)) &&
      (rem > 0 ==> NibbleAt(r.value, full) == IntendedNibble(NibbleAt(addressStr[2..], full), NibbleAt(h, full), rem)) &&
      (forall i :: full + (if rem > 0 then 1 else 0) <= i < 64 ==> NibbleAt(r.value, i) == NibbleAt(h, i))
  {
    var h := hash(secondaryAddressStr + addressStr);
    var full, rem := bits / 4, bits % 4;
    var p := IntendedPrefix(bits, addressStr, h);
    assert IsHex(p) by {
      assert p == p[..full] + p[full..];
      HexAppend(p[..full], p[full..]);
    }
    StorageKeyDigits(p, h);
    var k := Lower(p + Drop(h, |p|));
    assert IntendedStorageKey(bits, hash, addressStr, secondaryAddressStr) == Ok(k);
    forall i | 0 <= i < full
      ensures NibbleAt(k, i) == NibbleAt(addressStr[2..], i)
    {
      assert p[i] == p[..full][i] == addressStr[2 + i];
      NibbleAtDrop(addressStr, 2, i);
    }
    if rem > 0 {
      NibbleAtDrop(addressStr, 2, full);
      assert NibbleAt(k, full) == NibbleAt(p, full);
    }
  }

  /** Bit j of a key that lies in the partial digit `full`, seen through the
      digit's high bits. */
  lemma PartialDigitHighBit(k: string, t: string, full: nat, rem: nat, j: nat)
    requires 1 <= rem <= 3 && 4 * full <= j < 4 * full + rem
    requires (NibbleAt(k, full) >> (4 - rem)) == (NibbleAt(t, full) >> (4 - rem))
    ensures KeyBit(k, j) == KeyBit(t, j)
  {
    assert j / 4 == full;
    HighBitsAgree(NibbleAt(k, full), NibbleAt(t, full), 4 - rem, 3 - j % 4);
  }

  /** Bit j of a key that lies in the partial digit `full`, seen through the
      digit's low bits. */
  lemma PartialDigitLowBit(k: string, t: string, full: nat, rem: nat, j: nat)
    requires 1 <= rem <= 3 && 4 * full + rem <= j < 4 * full + 4
    requires (NibbleAt(k, full) & ((1 << (4 - rem)) - 1)) == (NibbleAt(t, full) & ((1 << (4 - rem)) - 1))
    ensures KeyBit(k, j) == KeyBit(t, j)
  {
    assert j / 4 == full;
    LowBitsAgree(NibbleAt(k, full), NibbleAt(t, full), 4 - rem, 3 - j % 4);
  }

  /** The corrected storage key gives the locality the siloing aims at: with h the hash of
      storage key and address, the key is canonical, its first `bits` bits
      are the address's and all its other bits are h's. */
  lemma IntendedStorageKeyBits(bits: nat, hash: string -> string, addressStr: string, secondaryAddressStr: string)
    requires IsEvmAddress(addressStr) && IsDigest(hash(secondaryAddressStr + addressStr)) && bits <= 160
    ensures var r := IntendedStorageKey(bits, hash, addressStr, secondaryAddressStr);
      var h := hash(secondaryAddressStr + addressStr);
      r.Ok? && IsShardKey(r.value) &&
      (forall j :: 0 <= j < bits ==> KeyBit(r.value, j) == KeyBit(addressStr[2..], j)) &&
      (forall j :: bits <= j < 256 ==> KeyBit(r.value, j) == KeyBit(h, j))
  {
    var h := hash(secondaryAddressStr + addressStr);
    var a := addressStr[2..];
    var full, rem := bits / 4, bits % 4;
    IntendedStorageKeyDigits(bits, hash, addressStr, secondaryAddressStr);
    var k := IntendedStorageKey(bits, hash, addressStr, secondaryAddressStr).value;
    forall j | 0 <= j < bits
      ensures KeyBit(k, j) == KeyBit(a, j)
    {
      if j < 4 * full {
        assert j / 4 < full;
      } else {
        PartialDigitHighBit(k, a, full, rem, j);
      }
    }
    forall j | bits <= j < 256
      ensures KeyBit(k, j) == KeyBit(h, j)
    {
      if rem > 0 && j < 4 * full + 4 {
        PartialDigitLowBit(k, h, full, rem, j);
      } else {
        assert full + (if rem > 0 then 1 else 0) <= j / 4 < 64;
      }
    }
  }

  /** The deployed k = 3 shortcut is the corrected algorithm at k = 3: its
      mask 14 is `(1 << 4) - (1 << 1)`. */
  lemma ShortcutIsIntended(cfg: Config, hash: string -> string, addressStr: string, secondaryAddressStr: string)
    requires cfg.contractStorageKeySilo && cfg.contractStoragePrefixBitLength == 3
    requires IsEvmAddress(addressStr) && IsDigest(hash(secondaryAddressStr + addressStr))
    ensures ToShardusAddressWithKey(cfg, hash, addressStr, secondaryAddressStr, ContractStorage)
      == IntendedStorageKey(3, hash, addressStr, secondaryAddressStr)
  {
    var h := hash(secondaryAddressStr + addressStr);
    var a, hn := NibbleAt(addressStr, 2), NibbleAt(h, 0);
    assert ShortcutNibble(a, hn) == IntendedNibble(a, hn, 3);
    var p := ShortcutPrefix(addressStr, h);
    assert Drop(h, |p|) == [];
    assert p + Drop(h, |p|) == DigitString(IntendedNibble(a, hn, 3)) + Drop(h, 1);
    var q := IntendedPrefix(3, addressStr, h);
    assert q == DigitString(IntendedNibble(a, hn, 3));
  }

  /** For a bit length that is a multiple of 4 there is no partial digit, and
      the code's key is the corrected one. */
  lemma WholeDigitPrefixIsIntended(cfg: Config, hash: string -> string, addressStr: string, secondaryAddressStr: string)
    requires cfg.contractStorageKeySilo && cfg.contractStoragePrefixBitLength % 4 == 0
    ensures ToShardusAddressWithKey(cfg, hash, addressStr, secondaryAddressStr, ContractStorage)
      == IntendedStorageKey(cfg.contractStoragePrefixBitLength, hash, addressStr, secondaryAddressStr)
  {
  }

  /** As written, for every bit length k with k % 4 > 0 other than 3, the
      last prefix bit of every siloed storage key is 0, whatever the address:
      the code's key and the corrected key differ in that bit exactly when
      the address has it set (for k = 1: every address whose first digit is
      8 or more). */
  lemma WrittenPrefixLastBitIsZero(cfg: Config, hash: string -> string, addressStr: string, secondaryAddressStr: string)
    requires cfg.contractStorageKeySilo && IsEvmAddress(addressStr)
    requires IsDigest(hash(secondaryAddressStr + addressStr))
    requires cfg.contractStoragePrefixBitLength % 4 != 0 && cfg.contractStoragePrefixBitLength != 3
    requires cfg.contractStoragePrefixBitLength <= 160
    ensures var bits := cfg.contractStoragePrefixBitLength;
      var r := ToShardusAddressWithKey(cfg, hash, addressStr, secondaryAddressStr, ContractStorage);
      var intended := IntendedStorageKey(bits, hash, addressStr, secondaryAddressStr);
      r.Ok? && intended.Ok? &&
      !KeyBit(r.value, bits - 1) &&
      (KeyBit(r.value, bits - 1) != KeyBit(intended.value, bits - 1) <==> KeyBit(addressStr[2..], bits - 1))
  {
    var bits := cfg.contractStoragePrefixBitLength;
    var h := hash(secondaryAddressStr + addressStr);
    SiloedStorageKey(cfg, hash, addressStr, secondaryAddressStr);
    var k := ToShardusAddressWithKey(cfg, hash, addressStr, secondaryAddressStr, ContractStorage).value;
    WrittenLastBit(k, bits, NibbleAt(addressStr, 2 + bits / 4), NibbleAt(h, bits / 4));
    IntendedStorageKeyBits(bits, hash, addressStr, secondaryAddressStr);
    var intended := IntendedStorageKey(bits, hash, addressStr, secondaryAddressStr).value;
    assert KeyBit(intended, bits - 1) == KeyBit(addressStr[2..], bits - 1);
  }

  /** A key whose digit k / 4 is mixed with the mask as written has bit
      k - 1 clear. */
  lemma WrittenLastBit(k: string, bits: nat, a: bv32, hn: bv32)
    requires bits % 4 != 0 && a < 16 && hn < 16
    requires NibbleAt(k, bits / 4) == WrittenNibble(a, hn, bits % 4)
    ensures !KeyBit(k, bits - 1)
  {
    assert (bits - 1) / 4 == bits / 4 && 3 - (bits - 1) % 4 == 4 - bits % 4;
  }
}
