# Shard keys of Shardeum accounts (`src/shardeum/evmAddress.ts`)

This project models the code that turns a Shardeum account into the key
the Shardus ledger uses to place the account's state on a shard. Every
validator must derive the same key from the same account, so the code is a
pure function. The key is normally 64 lower-case hex digits, and each
account type has its own rule:

- ordinary (and, in `toShardusAddress`, debug) accounts: the 40 address digits, lowered and padded with 24 `'0'`;
- receipts: the 64 digits after `0x`, lowered, or `''` for any other length;
- network-level accounts: the id, lowered by `toShardusAddressWithKey` and kept as it is by `getAccountShardusAddress` for an internal account; the `ethAddress` of a wrapped account of network type goes through `toShardusAddress` (lines 27, 120), which drops the first two characters of a 66-character value and lowers the rest, and lowers any other value whole;
- contract code: the formatted code hash; when code "siloing" is on, its first 8 digits are replaced by the contract address's first 8;
- contract storage: the formatted storage key; when storage siloing is on, `hash(key + address)`, whose first k bits
  (k = `contractStoragePrefixBitLength`) are meant to come from the owner address so that one contract's slots cluster.
  As written this holds when k is a multiple of 4 and for k = 3; for every other k the last prefix bit is always 0 (see Findings).

Modules:

- `Wrappers` holds `Result` (a value or a thrown error) and `Option` (a value or `undefined`).
- `HexText` models the JavaScript string built-ins the file uses. `toLowerCase` becomes `Lower`. `slice` becomes `Drop` and `Slice`, both clamped as JavaScript clamps. `repeat` becomes `Repeat`. `parseInt` and `toString(16)` become `HexValue` and `HexDigit`.
- `JsBits` holds the digit arithmetic of `getPrefix` on 32-bit values, as JavaScript's bitwise operators see them. `parseInt` of a missing or non-hex character is NaN, which a bitwise operator reads as 0 (`NibbleAt`).
- `EvmAddress` holds the seven functions of the file.
- `EvmAddressProperties` holds what each rule promises.
- `PrefixFinding` holds the storage-prefix mask as intended (see Findings).

The global `ShardeumFlags` becomes the `Config` argument, and `crypto.hash` becomes the `hash: string -> string` argument. Lemmas that need the hash assume only that it returns 64 hex digits for the string it is given (`IsDigest`). Every operation is total: JavaScript's slice clamping and NaN-to-0 coercion are modelled, not excluded. Hypotheses such as hex inputs or k <= 160 appear only on the lemmas that need them.

Behaviour of the code a reader may not expect:

- Storage siloing off gives `formatHexAddress(key, 66)`: the storage key is not hashed, and the owner address is not checked (line 56).
- The contract-code key is a plain 8-character slice of the address. It is only that prefix when the code hash is not 66 characters (lines 70-76).
- `toShardusAddressWithKey` has no `Debug` case. A well-formed 42-character debug address therefore gives `''` there (line 66), while `toShardusAddress` pads it (line 111).
- `getAccountShardusAddress` returns a network-level account's `id` and a node-reward receipt's `ethAddress` unmodified. `toShardusAddressWithKey` lowers both (lines 25, 35, 63).
- Length mismatches on receipts give `''`, not an error. The default rule of `toShardusAddress` falls back to the lowered id, not an error (lines 117, 120).
- The general prefix formula clears the last prefix bit and ORs the address digit's lower bits into the hash digit's (see Findings). The k = 3 shortcut is not equal to the general formula at k = 3.

## Model

| member | source | states |
|---|---|---|
| `HexText.Lower` | src/shardeum/evmAddress.ts:8 | `toLowerCase`: same length, each character lowered |
| `HexText.Drop` | src/shardeum/evmAddress.ts:74 | `slice(start)`: the characters from `start` on, empty past the end |
| `HexText.Slice` | src/shardeum/evmAddress.ts:73 | `slice(start, end)`: bounds clamped to the length, empty for an empty range |
| `HexText.Repeat` | src/shardeum/evmAddress.ts:44 | `'0'.repeat(n)`: n copies of the character |
| `JsBits.NibbleAt` | src/shardeum/evmAddress.ts:95-96 | `parseInt(s[i], 16)` under `&`: the digit's value, 0 for a missing or non-hex character |
| `JsBits.DigitString` | src/shardeum/evmAddress.ts:97 | `toString(16)` of a value below 16 is one lower-case digit that reads back as the value |
| `JsBits.ShortcutNibble` | src/shardeum/evmAddress.ts:88 | below 16; top three bits are the address digit's, the last bit the hash digit's |
| `JsBits.WrittenNibble` | src/shardeum/evmAddress.ts:97 | below 16; the top r - 1 bits are the address's, bit 4 - r is always 0, the low 4 - r bits are address OR hash |
| `EvmAddress.FormatHexAddress` | src/shardeum/evmAddress.ts:7-9 | empty unless the length matches; then length - 2 characters, each the lowered character two places on |
| `EvmAddress.PaddedAccountKey` | src/shardeum/evmAddress.ts:110-111 | 64 characters: the lowered 40 address digits, then 24 `'0'` |
| `EvmAddress.ToShardusAddressWithKey` | src/shardeum/evmAddress.ts:40-68 | throws exactly for a non-42-character address of type Account, or of ContractCode / ContractStorage with that silo flag on |
| `EvmAddress.GenerateShardusAddress` | src/shardeum/evmAddress.ts:70-76 | throws exactly for a non-42-character address; else the lowered first n address digits, then the formatted code hash from digit n on |
| `EvmAddress.GenerateContractStorageAddress` | src/shardeum/evmAddress.ts:78-84 | throws exactly for a non-42-character address; 64 characters for a 64-digit hash and k <= 160 |
| `EvmAddress.GetPrefix` | src/shardeum/evmAddress.ts:86-101 | k = 3: the shortcut spans the whole hash; otherwise at most 40 digits for k <= 160 |
| `EvmAddress.ShortcutPrefix` | src/shardeum/evmAddress.ts:87-90 | first digit takes the address digit's top three bits and the hash digit's last bit; the rest is the hash from digit 1 |
| `EvmAddress.GeneralPrefix` | src/shardeum/evmAddress.ts:91-100 | k / 4 address digits, plus the `WrittenNibble` digit when k % 4 > 0 |
| `EvmAddress.ToShardusAddress` | src/shardeum/evmAddress.ts:103-122 | throws exactly for a non-42-character Account or Debug address; never empty outside receipts for a non-empty id |
| `EvmAddress.FormattedOrLowered` | src/shardeum/evmAddress.ts:119-120 | a 66-character id gives its lowered 64 digits, any other id the whole id lowered |
| `EvmAddress.GetAccountShardusAddress` | src/shardeum/evmAddress.ts:11-38 | `undefined` exactly for internal accounts of non-network types; throws exactly under the per-type length checks |
| `EvmAddressProperties.FormatHexAddressCanonical` | src/shardeum/evmAddress.ts:7-9 | a 66-character hex value formats to the 64 lowered digits, a canonical key |
| `EvmAddressProperties.FormatHexAddressRoundTrip` | src/shardeum/evmAddress.ts:7-9 | a canonical key behind any two-character prefix formats back to itself |
| `EvmAddressProperties.StorageKeyDigits` | src/shardeum/evmAddress.ts:80-83 | `lower(prefix + hash[len(prefix)..])` is canonical and has the prefix's digits, then the hash's |
| `EvmAddressProperties.AccountOrDebugKey` | src/shardeum/evmAddress.ts:108-111 | 42 characters: 64-character key, lowered address then 24 `'0'`, canonical for hex; other lengths throw |
| `EvmAddressProperties.AccountKeyWithKey` | src/shardeum/evmAddress.ts:42-44 | same key and same length check as `toShardusAddress` for Account |
| `EvmAddressProperties.DebugKeyWithKey` | src/shardeum/evmAddress.ts:65-66 | Debug takes the default 66-character rule: `''` for a well-formed debug address, unlike `toShardusAddress` |
| `EvmAddressProperties.PaddedAccountKeyInjective` | src/shardeum/evmAddress.ts:44 | two addresses share a key exactly when their lowered digits agree |
| `EvmAddressProperties.ReceiptKey` | src/shardeum/evmAddress.ts:113-117 | both entry points format the id: canonical for a 66-character hex id, `''` for any other length |
| `EvmAddressProperties.DefaultKey` | src/shardeum/evmAddress.ts:119-120 | a 66-character id is formatted, any other id only lowered |
| `EvmAddressProperties.ContractCodeKeySiloed` | src/shardeum/evmAddress.ts:70-76 | first 8 digits from the address; 64 digits with the code hash's last 56 for a 66-character hash, only the prefix otherwise; error for a non-42 address |
| `EvmAddressProperties.CodeKeyParts` | src/shardeum/evmAddress.ts:70-76 | an 8-digit generated key is the lowered address digits 2..10 followed by the lowered digits 10.. of a 66-character secondary value (nothing else otherwise), and is lower-case hex when both inputs are hex |
| `EvmAddressProperties.ContractCodeKeyUnsiloed` | src/shardeum/evmAddress.ts:53 | silo off: the formatted code hash, the address unread |
| `EvmAddressProperties.ContractStorageKeyUnsiloed` | src/shardeum/evmAddress.ts:56 | silo off: the formatted storage key, independent of the hash function and the owner address |
| `EvmAddressProperties.SiloedStorageKey` | src/shardeum/evmAddress.ts:78-100 | k != 3: canonical key; first k / 4 digits the address's, then the `WrittenNibble` digit when k % 4 > 0, then the hash's |
| `EvmAddressProperties.SiloedStorageKeyOneByte` | src/shardeum/evmAddress.ts:91-98 | k = 8: the address's first byte, then the hash from its second byte |
| `EvmAddressProperties.SiloedStorageKeyExample` | src/shardeum/evmAddress.ts:78-83 | owner of twenty bytes a, a hash of thirty-two bytes b, k = 8: a followed by thirty-one b |
| `EvmAddressProperties.SiloedStorageKeyWithoutPrefix` | src/shardeum/evmAddress.ts:91-94 | k = 0: the lowered hash |
| `EvmAddressProperties.SiloedStorageKeyShortcut` | src/shardeum/evmAddress.ts:87-89 | k = 3: canonical; first digit `(a0 & 14) OR (h0 & 1)`, then the hash's digits 1 to 63 |
| `EvmAddressProperties.ShortcutDisagreesWithGeneral` | src/shardeum/evmAddress.ts:87-97 | address digit 2 and hash digit 0: the shortcut gives "2", the general formula at r = 3 gives "0" |
| `EvmAddressProperties.NodeRewardReceiptKeepsCase` | src/shardeum/evmAddress.ts:24-25 | the key is the address unmodified; `toShardusAddressWithKey` lowers it; equal exactly when there is no upper-case letter |
| `EvmAddressProperties.InternalAccountKey` | src/shardeum/evmAddress.ts:29-37 | network-level internal accounts: their id unmodified (lowered by `toShardusAddressWithKey`); other internal accounts: `undefined` |
| `EvmAddressProperties.EvmAccountKeyIsShardKey` | src/shardeum/evmAddress.ts:11-28 | every wrapped EVM account with well-formed inputs gets a canonical 64-digit key |
| `PrefixFinding.IntendedNibble` | src/shardeum/evmAddress.ts:97 | corrected mask: the top r bits are the address digit's, the low 4 - r the hash digit's |
| `PrefixFinding.IntendedPrefix` | src/shardeum/evmAddress.ts:91-100 | k / 4 address digits, plus the `IntendedNibble` digit when k % 4 > 0 |
| `PrefixFinding.IntendedStorageKey` | src/shardeum/evmAddress.ts:78-84 | throws exactly for a non-42-character address |
| `PrefixFinding.IntendedStorageKeyDigits` | src/shardeum/evmAddress.ts:91-99 | canonical; address digits, the corrected partial digit, then hash digits |
| `PrefixFinding.IntendedStorageKeyBits` | src/shardeum/evmAddress.ts:91-99 | the first k bits of the corrected key are the address's, bits k to 255 the hash's |
| `PrefixFinding.ShortcutIsIntended` | src/shardeum/evmAddress.ts:87-89 | the k = 3 shortcut equals the corrected algorithm at k = 3 |
| `PrefixFinding.WholeDigitPrefixIsIntended` | src/shardeum/evmAddress.ts:91-93 | for k a multiple of 4 the code's storage key is the corrected one |
| `PrefixFinding.WrittenPrefixLastBitIsZero` | src/shardeum/evmAddress.ts:97 | k % 4 > 0, k != 3: bit k - 1 of every storage key is 0; it differs from the corrected key exactly when the address has that bit set |

## Left out

- Verbose logging (`console.log` under `ShardeumFlags.VerboseLogs`, lines 104-106) is I/O and is not modelled.
- `crypto.hash` is a parameter. Its algorithm is not part of this model, and lemmas assume only that it answers 64 hex digits.
- The type guards `isWrappedEVMAccount` and `isInternalAccount` and the `shardeumTypes` schema are not part of this model. The two guards become the two constructors of `ShardeumAccount`, so the final fall-through of `getAccountShardusAddress` is not representable: that is when an account is neither.
- `AccountType` has exactly the 13 members the file names. Any other member of the real enum is not modelled.
- Loading `ShardeumFlags` is not modelled. `Config` is a read-only argument.
- `contractStoragePrefixBitLength` is a `nat`. Negative or fractional JavaScript numbers are not modelled.
- `toLowerCase` lowers ASCII letters only. Unicode case mapping of other characters is not modelled.
- Error messages keep only the offending address, not the message text.
- Non-string inputs such as an `undefined` storage key are not modelled.
- Strings are sequences of Unicode scalar values, while JavaScript's `.length` and `s[i]` count UTF-16 code units. The length checks (lines 8, 43, 71, 79, 110) and the digit index of line 95 therefore disagree with JavaScript on characters outside the Basic Multilingual Plane. For example, 41 scalar values ending in U+1F600 are 42 code units, so `toShardusAddress` does not throw but `ToShardusAddress` is `Err`. Hex inputs are unaffected.

## Findings

| source | as written | input that shows it | evidently intended | confidence | as-written member | corrected member |
|---|---|---|---|---|---|---|
| src/shardeum/evmAddress.ts:97 | address mask `(1 << 4) - 1 - (1 << (4 - r))`, i.e. 15 - 2^(4-r) (7, 11, 13 for r = 1, 2, 3), which always clears the last prefix bit and ORs address bits into the hash bits | storage siloing on, k = 1, owner address whose first digit is `8`: the key's first digit is `(8 & 7) OR (h & 7)`, below 8, so the key's first bit is 0 while the address's is 1 | mask `(1 << 4) - (1 << (4 - r))`: the high r bits of the address digit, as the k = 3 shortcut at line 88 does with mask 14 | high; not executed | `PrefixFinding.WrittenPrefixLastBitIsZero` | `PrefixFinding.IntendedStorageKeyBits` |

The keys the validators derive are the ones the code computes. For that reason `EvmAddress` and the dispatcher keep the mask as written, and `PrefixFinding.IntendedStorageKey` is the corrected derivation. `PrefixFinding.ShortcutIsIntended` and `PrefixFinding.WholeDigitPrefixIsIntended` show that the two agree for k = 3 and for every k that is a multiple of 4. For any other k they differ.
