/** What the derivation rules of `EvmAddress` promise, rule by rule. */
module EvmAddressProperties {
  import opened Wrappers
  import opened HexText
  import opened JsBits
  import opened EvmAddress

  // ----- formatHexAddress -----

  /** A "0x"-prefixed 32-byte value formats to a canonical key: its 64
      digits, lowered. */
  lemma FormatHexAddressCanonical(s: string)
    requires IsWord(s)
    ensures FormatHexAddress(s, 66) == Lower(s[2..])
    ensures IsShardKey(FormatHexAddress(s, 66))
  {
  }

  /** Formatting undoes prefixing: a canonical key behind any two-character
      prefix formats back to itself. */
  lemma FormatHexAddressRoundTrip(prefix: string, k: string)
    requires |prefix| == 2 && IsShardKey(k)
    ensures FormatHexAddress(prefix + k, 66) == k
  {
    assert (prefix + k)[2..] == k;
    LowerOfNoUpper(k);
  }

  // ----- the storage key from its prefix -----

  /** The storage key `Lower(p + hash[|p|..])` for a hex prefix p of at most
      64 digits and a 64-digit hash: a canonical key whose digits are p's and
      then the hash's. */
  lemma StorageKeyDigits(p: string, h: string)
    requires |p| <= 64 && IsHex(p) && IsDigest(h)
    ensures var k := Lower(p + Drop(h, |p|));
      IsShardKey(k) &&
      k[..|p|] == Lower(p) && k[|p|..] == Lower(h[|p|..]) &&
      (forall i :: 0 <= i < |p| ==> NibbleAt(k, i) == NibbleAt(p, i)) &&
      (forall i :: |p| <= i < 64 ==> NibbleAt(k, i) == NibbleAt(h, i))
  {
    var q := p + h[|p|..];
    assert Drop(h, |p|) == h[|p|..];
    HexAppend(p, h[|p|..]);
    LowerOfHex(q);
    LowerAppend(p, h[|p|..]);
    forall i | 0 <= i < |p|
      ensures NibbleAt(Lower(q), i) == NibbleAt(p, i)
    {
      NibbleAtLower(q, i);
      NibbleAtAppend(p, h[|p|..], i);
    }
    forall i | |p| <= i < 64
      ensures NibbleAt(Lower(q), i) == NibbleAt(h, i)
    {
      NibbleAtLower(q, i);
      assert q[i] == h[i];
    }
  }

  // ----- ordinary, debug and receipt accounts -----

  /** `toShardusAddress` for Account and Debug: a 42-character address gives
      its 40 lowered digits and 24 '0' characters, a canonical key when the
      digits are hex; any other length is an error. */
  lemma AccountOrDebugKey(addressStr: string, t: AccountType)
    requires t == Account || t == Debug
    ensures var r := ToShardusAddress(addressStr, t);
      (|addressStr| != 42 ==> r == Err(InvalidAccountOrDebugAddress(addressStr))) &&
      (|addressStr| == 42 ==>
         r.Ok? && |r.value| == 64 && r.value[..40] == Lower(addressStr[2..]) &&
         (forall i :: 40 <= i < 64 ==> r.value[i] == '0')) &&
      (IsEvmAddress(addressStr) ==> r.Ok? && IsShardKey(r.value))
  {
    if IsEvmAddress(addressStr) {
      LowerOfHex(addressStr[2..]);
    }
  }

  /** `toShardusAddressWithKey` for Account: the same padded key, the same
      length check. */
  lemma AccountKeyWithKey(cfg: Config, hash: string -> string, addressStr: string, secondaryAddressStr: string)
    ensures var r := ToShardusAddressWithKey(cfg, hash, addressStr, secondaryAddressStr, Account);
      (|addressStr| != 42 ==> r == Err(InvalidAccountAddress(addressStr))) &&
      (|addressStr| == 42 ==> r == ToShardusAddress(addressStr, Account)) &&
      (IsEvmAddress(addressStr) ==> r.Ok? && IsShardKey(r.value))
  {
    AccountOrDebugKey(addressStr, Account);
  }

  /** `toShardusAddressWithKey` has no Debug case: a Debug address takes the
      default 66-character rule, so a well-formed 42-character Debug address
      gives the empty key there and the padded key in `toShardusAddress`. */
  lemma DebugKeyWithKey(cfg: Config, hash: string -> string, addressStr: string, secondaryAddressStr: string)
    ensures ToShardusAddressWithKey(cfg, hash, addressStr, secondaryAddressStr, Debug)
      == Ok(FormatHexAddress(addressStr, 66))
    ensures IsEvmAddress(addressStr) ==>
      ToShardusAddressWithKey(cfg, hash, addressStr, secondaryAddressStr, Debug) == Ok([]) &&
      ToShardusAddress(addressStr, Debug) == Ok(PaddedAccountKey(addressStr))
  {
  }

  /** The padded account key loses nothing: two addresses get the same key
      exactly when their lowered digits agree. */
  lemma PaddedAccountKeyInjective(a: string, b: string)
    requires |a| == 42 && |b| == 42
    ensures PaddedAccountKey(a) == PaddedAccountKey(b) <==> Lower(a[2..]) == Lower(b[2..])
  {
    if Lower(a[2..]) == Lower(b[2..]) {
      assert forall i :: 0 <= i < 64 ==> PaddedAccountKey(a)[i] == PaddedAccountKey(b)[i] by {
        forall i | 0 <= i < 40 ensures PaddedAccountKey(a)[i] == PaddedAccountKey(b)[i] {
          assert PaddedAccountKey(a)[i] == PaddedAccountKey(a)[..40][i];
          assert PaddedAccountKey(b)[i] == PaddedAccountKey(b)[..40][i];
        }
      }
    }
  }

  /** Receipt-like types: both entry points format the 66-character id,
      giving a canonical key for a well-formed id and the empty string for
      any other length. */
  lemma ReceiptKey(cfg: Config, hash: string -> string, addressStr: string, secondaryAddressStr: string, t: AccountType)
    requires IsReceiptType(t)
    ensures var r := ToShardusAddress(addressStr, t);
      r == ToShardusAddressWithKey(cfg, hash, addressStr, secondaryAddressStr, t) &&
      r == Ok(FormatHexAddress(addressStr, 66)) &&
      (IsWord(addressStr) ==> IsShardKey(r.value)) &&
      (|addressStr| != 66 ==> r == Ok([]))
  {
  }

  /** The default rule of `toShardusAddress`: a 66-character id is
      formatted, anything else is only lowered (the empty format result is
      falsy, so `||` takes the lowered id). */
  lemma DefaultKey(addressStr: string, t: AccountType)
    requires t != Account && t != Debug && !IsReceiptType(t)
    ensures |addressStr| == 66 ==> ToShardusAddress(addressStr, t) == Ok(Lower(addressStr[2..]))
    ensures |addressStr| != 66 ==> ToShardusAddress(addressStr, t) == Ok(Lower(addressStr))
  {
    assert ToShardusAddress(addressStr, t) == Ok(FormattedOrLowered(addressStr));
  }

  // ----- contract code -----

  /** Siloed contract-code key: the 8 lowered address digits, then the
      formatted code hash from digit 8 on. A 66-character code hash gives 64
      digits, any other length leaves only the 8-digit prefix; an address
      that is not 42 characters is an error. */
  lemma ContractCodeKeySiloed(cfg: Config, hash: string -> string, addressStr: string, secondaryAddressStr: string)
    requires cfg.contractCodeKeySilo
    ensures var r := ToShardusAddressWithKey(cfg, hash, addressStr, secondaryAddressStr, ContractCode);
      (|addressStr| != 42 ==> r == Err(InvalidContractCodeAddress)) &&
      (|addressStr| == 42 ==> r.Ok? && |r.value| >= 8 && r.value[..8] == Lower(addressStr[2..10])) &&
      (|addressStr| == 42 && |secondaryAddressStr| == 66 ==>
         |r.value| == 64 && r.value[8..] == Lower(secondaryAddressStr[10..])) &&
      (|addressStr| == 42 && |secondaryAddressStr| != 66 ==> r.value == Lower(addressStr[2..10])) &&
      (IsEvmAddress(addressStr) && IsWord(secondaryAddressStr) ==> IsShardKey(r.value))
  {
    assert ToShardusAddressWithKey(cfg, hash, addressStr, secondaryAddressStr, ContractCode)
      == GenerateShardusAddress(addressStr, secondaryAddressStr, 8);
    if |addressStr| == 42 {
      CodeKeyParts(addressStr, secondaryAddressStr);
    }
  }

  /** `generateShardusAddress` with 8 prefix digits, split into its two
      parts. */
  lemma CodeKeyParts(addressStr: string, secondaryAddressStr: string)
    requires |addressStr| == 42
    ensures var k := GenerateShardusAddress(addressStr, secondaryAddressStr, 8).value;
      (|secondaryAddressStr| == 66 ==> k == Lower(addressStr[2..10]) + Lower(secondaryAddressStr[10..])) &&
      (|secondaryAddressStr| != 66 ==> k == Lower(addressStr[2..10])) &&
      (IsEvmAddress(addressStr) && IsWord(secondaryAddressStr) ==> IsLowerHex(k))
  {
    var k := GenerateShardusAddress(addressStr, secondaryAddressStr, 8).value;
    var f := FormatHexAddress(secondaryAddressStr, 66);
    assert k == k[..8] + k[8..];
    if |secondaryAddressStr| == 66 {
      SuffixOfFormatted(secondaryAddressStr);
      if IsEvmAddress(addressStr) && IsWord(secondaryAddressStr) {
        LowerOfHex(addressStr[2..10]);
        LowerOfHex(secondaryAddressStr[10..]);
        HexAppend(Lower(addressStr[2..10]), Lower(secondaryAddressStr[10..]));
      }
    }
  }

  /** The formatted 66-character value from digit 8 on. */
  lemma SuffixOfFormatted(s: string)
    requires |s| == 66
    ensures Drop(FormatHexAddress(s, 66), 8) == Lower(s[10..])
  {
    LowerSlice(s, 2, 66);
    LowerSlice(s, 10, 66);
    assert FormatHexAddress(s, 66) == Lower(s)[2..];
  }

  /** Unsiloed contract-code key: the formatted code hash alone; the
      contract address is not read. */
  lemma ContractCodeKeyUnsiloed(cfg: Config, hash: string -> string, addressStr: string, secondaryAddressStr: string)
    requires !cfg.contractCodeKeySilo
    ensures ToShardusAddressWithKey(cfg, hash, addressStr, secondaryAddressStr, ContractCode)
      == Ok(FormatHexAddress(secondaryAddressStr, 66))
  {
  }

  // ----- contract storage -----

  /** Unsiloed contract-storage key: the formatted storage key itself. It is
      not hashed, and neither the hash function nor the owner address (not
      even its length) has any influence. */
  lemma ContractStorageKeyUnsiloed(
    cfg: Config, hash: string -> string, otherHash: string -> string,
    addressStr: string, otherAddressStr: string, secondaryAddressStr: string)
    requires !cfg.contractStorageKeySilo
    ensures ToShardusAddressWithKey(cfg, hash, addressStr, secondaryAddressStr, ContractStorage)
      == Ok(FormatHexAddress(secondaryAddressStr, 66))
      == ToShardusAddressWithKey(cfg, otherHash, otherAddressStr, secondaryAddressStr, ContractStorage)
  {
  }

  /** Siloed contract-storage key for every bit length k but 3: with h the
      hash of storage key and address, the key is canonical, its first k / 4
      digits are the address's, for r = k % 4 > 0 the next digit is the
      `WrittenNibble` mix of the address's and h's digits there, and the
      rest is h's. */
  lemma SiloedStorageKey(cfg: Config, hash: string -> string, addressStr: string, secondaryAddressStr: string)
    requires cfg.contractStorageKeySilo && IsEvmAddress(addressStr)
    requires IsDigest(hash(secondaryAddressStr + addressStr))
    requires cfg.contractStoragePrefixBitLength != 3 && cfg.contractStoragePrefixBitLength <= 160
    ensures var r := ToShardusAddressWithKey(cfg, hash, addressStr, secondaryAddressStr, ContractStorage);
      var h := hash(secondaryAddressStr + addressStr);
      var full := cfg.contractStoragePrefixBitLength / 4;
      var rem := cfg.contractStoragePrefixBitLength % 4;
      var n := full + (if rem > 0 then 1 else 0);
      r.Ok? && IsShardKey(r.value) &&
      r.value[..full] == Lower(addressStr[2..2 + full]) &&
      (rem > 0 ==> NibbleAt(r.value, full) == WrittenNibble(NibbleAt(addressStr, 2 + full), NibbleAt(h, full), rem)) &&
      r.value[n..] == Lower(h[n..])
  {
    var bits := cfg.contractStoragePrefixBitLength;
    var h := hash(secondaryAddressStr + addressStr);
    var full, rem := bits / 4, bits % 4;
    var p := GeneralPrefix(bits, addressStr, h);
    GeneralPrefixIsHex(bits, addressStr, h);
    assert ToShardusAddressWithKey(cfg, hash, addressStr, secondaryAddressStr, ContractStorage)
      == Ok(Lower(p + Drop(h, |p|)));
    StorageKeyDigits(p, h);
    LowerSlice(p, 0, full);
  }

  /** Under the hypotheses of `SiloedStorageKey` the general prefix is hex. */
  lemma GeneralPrefixIsHex(bits: nat, addressStr: string, hashedSuffixKey: string)
    requires IsEvmAddress(addressStr) && bits <= 160
    ensures IsHex(GeneralPrefix(bits, addressStr, hashedSuffixKey))
  {
    var p, full := GeneralPrefix(bits, addressStr, hashedSuffixKey), bits / 4;
    assert p == p[..full] + p[full..];
    HexAppend(p[..full], p[full..]);
  }

  /** `n` copies of the two-digit byte `b`. */
  function Bytes(b: string, n: nat): (r: string)
    requires |b| == 2
    ensures |r| == 2 * n
  {
    if n == 0 then [] else b + Bytes(b, n - 1)
  }

  lemma {:induction false} BytesIsLowerHex(b: string, n: nat)
    requires |b| == 2 && IsLowerHex(b)
    ensures IsLowerHex(Bytes(b, n))
  {
    if n > 0 {
      BytesIsLowerHex(b, n - 1);
      assert forall i :: 0 <= i < 2 * n ==> Bytes(b, n)[i] == if i < 2 then b[i] else Bytes(b, n - 1)[i - 2];
    }
  }

  /** With k = 8 the siloed storage key is the address's first byte and
      then the hash from its second byte on. */
  lemma SiloedStorageKeyOneByte(cfg: Config, hash: string -> string, addressStr: string, secondaryAddressStr: string)
    requires cfg.contractStorageKeySilo && IsEvmAddress(addressStr)
    requires IsDigest(hash(secondaryAddressStr + addressStr))
    requires cfg.contractStoragePrefixBitLength == 8
    ensures ToShardusAddressWithKey(cfg, hash, addressStr, secondaryAddressStr, ContractStorage)
      == Ok(Lower(addressStr[2..4]) + Lower(hash(secondaryAddressStr + addressStr)[2..]))
  {
    SiloedStorageKey(cfg, hash, addressStr, secondaryAddressStr);
    var k := ToShardusAddressWithKey(cfg, hash, addressStr, secondaryAddressStr, ContractStorage).value;
    assert k == k[..2] + k[2..];
  }

  /** The worked instance, for any two lower-case bytes a and b (such as
      "a1" and "bb"): an owner address of twenty a's, a hash that always
      answers thirty-two b's, and k = 8 give a followed by thirty-one b's,
      whatever the storage key. */
  lemma SiloedStorageKeyExample(a: string, b: string, secondaryAddressStr: string)
    requires |a| == 2 && IsLowerHex(a) && |b| == 2 && IsLowerHex(b)
    ensures ToShardusAddressWithKey(
        Config(false, true, 8), _ => Bytes(b, 32), "0x" + Bytes(a, 20), secondaryAddressStr, ContractStorage)
      == Ok(a + Bytes(b, 31))
  {
    var cfg, hash: string -> string := Config(false, true, 8), _ => Bytes(b, 32);
    var addressStr := "0x" + Bytes(a, 20);
    BytesIsLowerHex(a, 20);
    BytesIsLowerHex(b, 32);
    BytesIsLowerHex(b, 31);
    assert addressStr[2..] == Bytes(a, 20);
    assert addressStr[2..4] == a;
    SiloedStorageKeyOneByte(cfg, hash, addressStr, secondaryAddressStr);
    LowerOfNoUpper(a);
    assert Bytes(b, 32)[2..] == Bytes(b, 31);
    LowerOfNoUpper(Bytes(b, 31));
  }

  /** With k = 0 the siloed storage key is the lowered hash. */
  lemma SiloedStorageKeyWithoutPrefix(cfg: Config, hash: string -> string, addressStr: string, secondaryAddressStr: string)
    requires cfg.contractStorageKeySilo && IsEvmAddress(addressStr)
    requires IsDigest(hash(secondaryAddressStr + addressStr))
    requires cfg.contractStoragePrefixBitLength == 0
    ensures ToShardusAddressWithKey(cfg, hash, addressStr, secondaryAddressStr, ContractStorage)
      == Ok(Lower(hash(secondaryAddressStr + addressStr)))
  {
    SiloedStorageKey(cfg, hash, addressStr, secondaryAddressStr);
  }

  /** Siloed contract-storage key for k = 3 (the shortcut): the first digit
      mixes the address's first digit (mask 14) with the hash's (mask 1), the
      other 63 are the hash's. */
  lemma SiloedStorageKeyShortcut(cfg: Config, hash: string -> string, addressStr: string, secondaryAddressStr: string)
    requires cfg.contractStorageKeySilo && IsEvmAddress(addressStr)
    requires IsDigest(hash(secondaryAddressStr + addressStr))
    requires cfg.contractStoragePrefixBitLength == 3
    ensures var r := ToShardusAddressWithKey(cfg, hash, addressStr, secondaryAddressStr, ContractStorage);
      var h := hash(secondaryAddressStr + addressStr);
      r.Ok? && IsShardKey(r.value) &&
      NibbleAt(r.value, 0) == ShortcutNibble(NibbleAt(addressStr, 2), NibbleAt(h, 0)) &&
      r.value[1..] == Lower(h[1..])
  {
    var h := hash(secondaryAddressStr + addressStr);
    var p := GetPrefix(3, addressStr, h);
    assert p == ShortcutPrefix(addressStr, h);
    assert IsHex(p) by {
      assert p == p[..1] + p[1..];
      HexAppend(p[..1], p[1..]);
    }
    var k := Lower(p + Drop(h, |p|));
    assert ToShardusAddressWithKey(cfg, hash, addressStr, secondaryAddressStr, ContractStorage) == Ok(k);
    StorageKeyDigits(p, h);
    assert NibbleAt(k, 0) == NibbleAt(p, 0);
    assert k[1..] == Lower(h[1..]) by {
      assert |p| == 64 && p[1..] == h[1..];
      assert k == Lower(p);
      LowerSlice(p, 1, 64);
    }
  }

  /** The k = 3 shortcut and the general formula at r = 3 are not the same
      function: address digit 2 and hash digit 0 give "2" from the shortcut
      and "0" from the general formula. */
  lemma ShortcutDisagreesWithGeneral(addressStr: string, hashedSuffixKey: string)
    requires |addressStr| >= 3 && addressStr[2] == '2'
    requires |hashedSuffixKey| >= 1 && hashedSuffixKey[0] == '0'
    ensures ShortcutPrefix(addressStr, hashedSuffixKey)[0] == '2'
    ensures GeneralPrefix(3, addressStr, hashedSuffixKey) == "0"
  {
    assert NibbleAt(addressStr, 2) == 2;
    assert NibbleAt(hashedSuffixKey, 0) == 0;
  }

  // ----- the dispatcher -----

  /** A node-reward receipt's key is its address as it is, while
      `toShardusAddressWithKey` lowers the same address; the two agree
      exactly when the address has no upper-case letter. */
  lemma NodeRewardReceiptKeepsCase(
    cfg: Config, hash: string -> string, ethAddress: string, key: string, contractAddress: string,
    secondaryAddressStr: string)
    ensures GetAccountShardusAddress(cfg, hash, WrappedEvmAccount(NodeRewardReceipt, ethAddress, key, contractAddress))
      == Ok(Some(ethAddress))
    ensures ToShardusAddressWithKey(cfg, hash, ethAddress, secondaryAddressStr, NodeRewardReceipt)
      == Ok(Lower(ethAddress))
    ensures Lower(ethAddress) == ethAddress <==> forall i :: 0 <= i < |ethAddress| ==> !IsUpper(ethAddress[i])
  {
    if forall i :: 0 <= i < |ethAddress| ==> !IsUpper(ethAddress[i]) {
      LowerOfNoUpper(ethAddress);
    }
  }

  /** An internal account of a network-level type is keyed by its id as it
      is (which `toShardusAddressWithKey` would lower); any other internal
      account gets no key. */
  lemma InternalAccountKey(cfg: Config, hash: string -> string, t: AccountType, id: string, secondaryAddressStr: string)
    ensures GetAccountShardusAddress(cfg, hash, InternalAccount(t, id))
      == if IsNetworkLevelType(t) then Ok(Some(id)) else Ok(None)
    ensures IsNetworkLevelType(t) ==> ToShardusAddressWithKey(cfg, hash, id, secondaryAddressStr, t) == Ok(Lower(id))
  {
  }

  /** The inputs each rule needs to produce a canonical key. */
  predicate WellFormedEvmAccount(cfg: Config, hash: string -> string, account: ShardeumAccount)
    requires account.WrappedEvmAccount?
  {
    match account.accountType
    case Account | Debug => IsEvmAddress(account.ethAddress)
    case ContractCode =>
      IsWord(account.ethAddress) && (cfg.contractCodeKeySilo ==> IsEvmAddress(account.contractAddress))
    case ContractStorage =>
      if cfg.contractStorageKeySilo then
        IsEvmAddress(account.ethAddress) && IsDigest(hash(account.key + account.ethAddress))
        && cfg.contractStoragePrefixBitLength <= 160
      else IsWord(account.key)
    case NodeRewardReceipt => IsShardKey(account.ethAddress)
    case _ => IsWord(account.ethAddress)
  }

  /** Width invariant: every wrapped EVM account with well-formed inputs is
      keyed by 64 lower-case hex digits. */
  lemma EvmAccountKeyIsShardKey(cfg: Config, hash: string -> string, account: ShardeumAccount)
    requires account.WrappedEvmAccount? && WellFormedEvmAccount(cfg, hash, account)
    ensures var r := GetAccountShardusAddress(cfg, hash, account);
      r.Ok? && r.value.Some? && IsShardKey(r.value.value)
  {
    var t, eth := account.accountType, account.ethAddress;
    match t
    case Account | Debug =>
      AccountOrDebugKey(eth, t);
    case ContractCode =>
      if cfg.contractCodeKeySilo {
        ContractCodeKeySiloed(cfg, hash, account.contractAddress, eth);
      } else {
        FormatHexAddressCanonical(eth);
      }
    case ContractStorage =>
      if cfg.contractStorageKeySilo {
        if cfg.contractStoragePrefixBitLength == 3 {
          SiloedStorageKeyShortcut(cfg, hash, eth, account.key);
        } else {
          SiloedStorageKey(cfg, hash, eth, account.key);
        }
      } else {
        FormatHexAddressCanonical(account.key);
      }
    case NodeRewardReceipt =>
    case Receipt | StakeReceipt | UnstakeReceipt | InternalTxReceipt =>
      ReceiptKey(cfg, hash, eth, account.key, t);
    case NetworkAccount | NodeAccount | NodeAccount2 | DevAccount =>
      DefaultKey(eth, t);
      LowerOfHex(eth[2..]);
  }
}
