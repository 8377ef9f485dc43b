/** The shard-key derivation of `src/shardeum/evmAddress.ts`: every account
    the ledger stores is routed to a shard by a hex key, normally 64
    lower-case characters, computed here from the account's identity.

    The global `ShardeumFlags` is the `Config` argument, `crypto.hash` the
    `hash` argument, and a thrown `Error` an `Err` result. */
module EvmAddress {
  import opened Wrappers
  import opened HexText
  import opened JsBits

  /** The account types the file distinguishes. */
  datatype AccountType =
    | Account | Debug | ContractStorage | ContractCode
    | Receipt | StakeReceipt | UnstakeReceipt | InternalTxReceipt | NodeRewardReceipt
    | NetworkAccount | NodeAccount | NodeAccount2 | DevAccount

  /** The three flags the file reads. */
  datatype Config = Config(
    contractCodeKeySilo: bool,
    contractStorageKeySilo: bool,
    contractStoragePrefixBitLength: nat)

  /** The errors the file throws, one per `throw` site. */
  datatype AddressError =
    | InvalidAccountAddress(addressStr: string)
    | InvalidAccountOrDebugAddress(addressStr: string)
    | InvalidContractCodeAddress
    | InvalidContractStorageAddress

  /** The account a key is asked for: a wrapped EVM account or an internal
      (network-level) account. `key` is read only for contract storage and
      `contractAddress` only for contract code. */
  datatype ShardeumAccount =
    | WrappedEvmAccount(accountType: AccountType, ethAddress: string, key: string, contractAddress: string)
    | InternalAccount(accountType: AccountType, id: string)

  predicate IsReceiptType(t: AccountType) {
    t == Receipt || t == StakeReceipt || t == UnstakeReceipt || t == InternalTxReceipt
  }

  predicate IsNetworkLevelType(t: AccountType) {
    t == NetworkAccount || t == NodeAccount || t == NodeAccount2 || t == DevAccount
  }

  /** What `crypto.hash` returns: 64 hex digits. */
  predicate IsDigest(d: string) { |d| == 64 && IsHex(d) }

  /** A canonical shard key: 64 lower-case hex digits. */
  predicate IsShardKey(k: string) { |k| == 64 && IsLowerHex(k) }

  /** A "0x"-prefixed 20-byte address. */
  predicate IsEvmAddress(s: string) { |s| == 42 && IsHex(s[2..]) }

  /** A "0x"-prefixed 32-byte value (hash, storage key, code hash). */
  predicate IsWord(s: string) { |s| == 66 && IsHex(s[2..]) }

  /** `formatHexAddress`: the lowered text after the two-character "0x"
      when the length is the expected one, the empty string otherwise. */
  function FormatHexAddress(addressStr: string, length: nat): (r: string)
    ensures |addressStr| != length ==> r == []
    ensures |addressStr| == length >= 2 ==> |r| == length - 2
    ensures r != [] ==> |r| + 2 == |addressStr|
    ensures forall i :: 0 <= i < |r| ==> r[i] == LowerChar(addressStr[i + 2])
  {
    if |addressStr| == length then Lower(Drop(addressStr, 2)) else []
  }

  /** The key of an ordinary account: the 40 lowered address digits padded
      with 24 '0' characters. */
  function PaddedAccountKey(addressStr: string): (r: string)
    requires |addressStr| == 42
    ensures |r| == 64 && r[..40] == Lower(addressStr[2..])
    ensures forall i :: 40 <= i < 64 ==> r[i] == '0'
  {
    Lower(Drop(addressStr, 2)) + Repeat('0', 24)
  }

  /** `toShardusAddressWithKey`. */
  function ToShardusAddressWithKey(
    cfg: Config, hash: string -> string,
    addressStr: string, secondaryAddressStr: string, accountType: AccountType): (r: Result<string, AddressError>)
    ensures r.Err? <==>
      |addressStr| != 42 &&
      (accountType == Account
       || (accountType == ContractCode && cfg.contractCodeKeySilo)
       || (accountType == ContractStorage && cfg.contractStorageKeySilo))
  {
    match accountType
    case Account =>
      if |addressStr| != 42 then Err(InvalidAccountAddress(addressStr))
      else Ok(PaddedAccountKey(addressStr))
    case Receipt | StakeReceipt | UnstakeReceipt | InternalTxReceipt =>
      Ok(FormatHexAddress(addressStr, 66))
    case ContractCode =>
      if cfg.contractCodeKeySilo then GenerateShardusAddress(addressStr, secondaryAddressStr, 8)
      else Ok(FormatHexAddress(secondaryAddressStr, 66))
    case ContractStorage =>
      if cfg.contractStorageKeySilo then GenerateContractStorageAddress(cfg, hash, addressStr, secondaryAddressStr)
      else Ok(FormatHexAddress(secondaryAddressStr, 66))
    case NetworkAccount | NodeAccount | NodeAccount2 | NodeRewardReceipt | DevAccount =>
      Ok(Lower(addressStr))
    case Debug =>
      Ok(FormatHexAddress(addressStr, 66))
  }

  /** `generateShardusAddress`: the contract-code key, the first
      `numPrefixChars` address digits followed by the formatted code hash
      from that position on. */
  function GenerateShardusAddress(addressStr: string, secondaryAddressStr: string, numPrefixChars: nat)
    : (r: Result<string, AddressError>)
    ensures r.Err? <==> |addressStr| != 42
    ensures r.Ok? && numPrefixChars <= 40 ==>
      |r.value| >= numPrefixChars &&
      r.value[..numPrefixChars] == Lower(addressStr[2..2 + numPrefixChars]) &&
      r.value[numPrefixChars..] == Drop(FormatHexAddress(secondaryAddressStr, 66), numPrefixChars)
  {
    if |addressStr| != 42 then Err(InvalidContractCodeAddress)
    else
      var formatted := FormatHexAddress(secondaryAddressStr, 66);
      var prefix := Slice(addressStr, 2, numPrefixChars + 2);
      var suffix := Drop(formatted, numPrefixChars);
      LowerAppend(prefix, suffix);
      LowerOfNoUpper(suffix);
      Ok(Lower(prefix + suffix))
  }

  /** `generateContractStorageAddress`: the storage key, the prefix of
      `GetPrefix` followed by the rest of `hash(key + address)`. */
  function GenerateContractStorageAddress(
    cfg: Config, hash: string -> string, addressStr: string, secondaryAddressStr: string)
    : (r: Result<string, AddressError>)
    ensures r.Err? <==> |addressStr| != 42
    ensures r.Ok? && IsDigest(hash(secondaryAddressStr + addressStr)) && cfg.contractStoragePrefixBitLength <= 160 ==>
      |r.value| == 64
  {
    if |addressStr| != 42 then Err(InvalidContractStorageAddress)
    else
      var hashedSuffixKey := hash(secondaryAddressStr + addressStr);
      var prefix := GetPrefix(cfg.contractStoragePrefixBitLength, addressStr, hashedSuffixKey);
      var suffix := Drop(hashedSuffixKey, |prefix|);
      Ok(Lower(prefix + suffix))
  }

  /** `getPrefix`: the k = 3 shortcut, or the general prefix for every other
      bit length k. */
  function GetPrefix(bits: nat, addressStr: string, hashedSuffixKey: string): (r: string)
    ensures bits == 3 ==> |r| == 1 + |Drop(hashedSuffixKey, 1)|
    ensures bits != 3 && bits <= 160 && |addressStr| == 42 ==> |r| <= 40
  {
    if bits == 3 then ShortcutPrefix(addressStr, hashedSuffixKey)
    else GeneralPrefix(bits, addressStr, hashedSuffixKey)
  }

  /** The k = 3 branch of `getPrefix`: one mixed digit, then the rest of the
      hash, so the "prefix" already spans the whole key. */
  function ShortcutPrefix(addressStr: string, hashedSuffixKey: string): (r: string)
    ensures |r| == 1 + |Drop(hashedSuffixKey, 1)|
    ensures IsLowerHexChar(r[0])
    ensures NibbleAt(r, 0) == ShortcutNibble(NibbleAt(addressStr, 2), NibbleAt(hashedSuffixKey, 0))
    ensures (NibbleAt(r, 0) >> 1) == (NibbleAt(addressStr, 2) >> 1)
    ensures (NibbleAt(r, 0) & 1) == (NibbleAt(hashedSuffixKey, 0) & 1)
    ensures r[1..] == Drop(hashedSuffixKey, 1)
  {
    var x := ShortcutNibble(NibbleAt(addressStr, 2), NibbleAt(hashedSuffixKey, 0));
    var digit := DigitString(x);
    NibbleAtAppend(digit, Drop(hashedSuffixKey, 1), 0);
    digit + Drop(hashedSuffixKey, 1)
  }

  /** The general branch of `getPrefix`: the first k / 4 address digits, and
      when r = k % 4 is not 0 one more digit mixed by `WrittenNibble`. */
  function GeneralPrefix(bits: nat, addressStr: string, hashedSuffixKey: string): (r: string)
    ensures 2 + bits / 4 <= |addressStr| ==>
      |r| == bits / 4 + (if bits % 4 > 0 then 1 else 0) &&
      r[..bits / 4] == addressStr[2..2 + bits / 4]
    ensures bits % 4 > 0 ==>
      |r| > 0 && IsLowerHexChar(r[|r| - 1]) &&
      NibbleAt(r, |r| - 1) ==
        WrittenNibble(NibbleAt(addressStr, 2 + bits / 4), NibbleAt(hashedSuffixKey, bits / 4), bits % 4)
  {
    var fullHexChars := bits / 4;
    var remainingBits := bits % 4;
    var prefix := Slice(addressStr, 2, 2 + fullHexChars);
    if remainingBits > 0 then
      prefix + DigitString(WrittenNibble(
        NibbleAt(addressStr, 2 + fullHexChars), NibbleAt(hashedSuffixKey, fullHexChars), remainingBits))
    else prefix
  }

  /** `toShardusAddress`. */
  function ToShardusAddress(addressStr: string, accountType: AccountType): (r: Result<string, AddressError>)
    ensures r.Err? <==> (accountType == Account || accountType == Debug) && |addressStr| != 42
    ensures r.Ok? && !IsReceiptType(accountType) && addressStr != [] ==> r.value != []
  {
    match accountType
    case Account | Debug =>
      if |addressStr| != 42 then Err(InvalidAccountOrDebugAddress(addressStr))
      else Ok(PaddedAccountKey(addressStr))
    case Receipt | StakeReceipt | UnstakeReceipt | InternalTxReceipt =>
      Ok(FormatHexAddress(addressStr, 66))
    case _ =>
      Ok(FormattedOrLowered(addressStr))
  }

  /** The default rule of `toShardusAddress`: the formatted id, or, when
      that is empty (and so falsy for `||`), the whole id lowered. */
  function FormattedOrLowered(addressStr: string): (r: string)
    ensures |addressStr| == 66 ==> r == Lower(addressStr[2..])
    ensures |addressStr| != 66 ==> r == Lower(addressStr)
  {
    var formatted := FormatHexAddress(addressStr, 66);
    assert |addressStr| == 66 ==> |formatted| == 64 && Drop(addressStr, 2) == addressStr[2..];
    if formatted != [] then formatted else Lower(addressStr)
  }

  /** `getAccountShardusAddress`: `Ok(None)` is the `undefined` an internal
      account of another type falls through to. */
  function GetAccountShardusAddress(cfg: Config, hash: string -> string, account: ShardeumAccount)
    : (r: Result<Option<string>, AddressError>)
    ensures r == Ok(None) <==> account.InternalAccount? && !IsNetworkLevelType(account.accountType)
    ensures r.Err? <==>
      account.WrappedEvmAccount? &&
      (((account.accountType == Account || account.accountType == Debug) && |account.ethAddress| != 42)
       || (account.accountType == ContractCode && cfg.contractCodeKeySilo && |account.contractAddress| != 42)
       || (account.accountType == ContractStorage && cfg.contractStorageKeySilo && |account.ethAddress| != 42))
  {
    match account
    case WrappedEvmAccount(accountType, ethAddress, key, contractAddress) =>
      (match accountType
       case ContractStorage =>
         Returned(ToShardusAddressWithKey(cfg, hash, ethAddress, key, accountType))
       case ContractCode =>
         Returned(ToShardusAddressWithKey(cfg, hash, contractAddress, ethAddress, accountType))
       case NodeRewardReceipt =>
         Ok(Some(ethAddress))
       case _ =>
         Returned(ToShardusAddress(ethAddress, accountType)))
    case InternalAccount(accountType, id) =>
      if IsNetworkLevelType(accountType) then Ok(Some(id)) else Ok(None)
  }

  /** A returned string, or the error that was thrown. */
  function Returned(r: Result<string, AddressError>): (o: Result<Option<string>, AddressError>)
    ensures o.Ok? <==> r.Ok?
    ensures o.Ok? ==> o.value == Some(r.value)
    ensures o.Err? ==> o.error == r.error
  {
    match r
    case Ok(s) => Ok(Some(s))
    case Err(e) => Err(e)
  }
}
