# Account vault of BABA Wallet's `SecureStorage`, in Dafny

`SecureStorage` is a Kotlin `object` that keeps a wallet's accounts in an
encrypted Android preferences file. Each account has private-key bytes, a
public key, an optional name and a display `order`. On top of the key-value
store the object runs a small state machine:

- the whole account list is stored as one list of DTO records whose private
  key is text;
- a collection-wide flag says whether that text is Base64 (migrated) or
  legacy Base58;
- a stored public key names the active account.

`saveAccount`, `updateAccount` with a matching key and `removeAccount` with
more than one stored account each read the whole list, change a working copy
and write the whole list back. Every read of the list migrates it first when
it is a non-empty legacy list. The two readers, `getAccounts` and
`getActiveAccount`, write only that migration, and `getActiveAccount` does not
read the list at all when no active key is stored. `updateAccount` without a
match writes nothing beyond that migration. `setActiveAccount` and `clear`
change their fields without reading the list.

The model has four modules:

- `Wrappers` (`Wrappers.dfy`): `Option`, the model of Kotlin's nullable types.
- `Base64` (`Base64.dfy`): a concrete encoder and strict decoder for section 4
  of RFC 4648, as `Base64.encodeToString(..., NO_WRAP)` writes it (padded,
  one line). Both round trips are proved: decoding inverts encoding, and
  every accepted text is the encoding of what it decodes to. The functions
  `Base64.Encode` and `Base64.Decode` have no `ensures` of their own. Their
  contract is the four lemmas in the table: `EncodeLength`, `DecodeLength`,
  `DecodeEncode` and `EncodeDecode`.
- `Accounts` (`Accounts.dfy`): the `Account` and `AccountDto` records. It also
  holds the pure list functions the object uses, each with its properties:
  - the DTO `map` of the write and read paths;
  - the stable sort by order, an insertion sort;
  - the largest order (none for an empty list), and the first index and first
    account with a given public key;
  - the renumbering of orders by position.
- `SecureStorage` (`SecureStorage.dfy`): class `Store`. Its fields are the
  persisted preferences: the DTO list, the migrated flag, the active key, and
  the biometric flag and PIN (kept only so that `clear` can be shown to wipe
  them). Its methods are the object's operations. Each method states the whole
  new state in terms of the old one, through the function `Accounts()` (what
  `getAccounts` returns). The module ends with client methods that derive
  concrete behaviours from the contracts alone: adding a fourth account to
  three, removing the active middle account, removing the last account, and
  migrating a legacy vault once.

The class invariant `Valid()` says that, once the flag is set, every stored key
is well-formed Base64. `saveAccounts` is the only writer that sets the flag
(`clear` empties the list and resets it), so every operation keeps it. Under it, the Base64 decode at SecureStorage.kt:139 never throws.

Notes on how the code behaves, which the model follows:

- `removeAccount` with more than one account and a key that is absent calls
  `removeAt(-1)`, which throws. It is not a no-op. `Store.RemoveAccount`
  therefore requires the key to be present when more than one account is
  stored.
- `removeAccount` clears the vault whenever one account or none is stored,
  whatever the target.
- `saveAccount` appends an account whose public key is already stored, without
  any check. `find` and `indexOfFirst` then keep returning the earlier account,
  and `Store.SaveAccount` states this case.
- The migration flag is stored under the key `data_migrated_to_byte_array`.

## Model

| member | source | states |
|---|---|---|
| `Base64.EncodeLength` | SecureStorage.kt:102 | the padded encoding has 4 characters per started group of 3 bytes |
| `Base64.DecodeLength` | SecureStorage.kt:139 | an accepted text has exactly the length of the encoding of the bytes it yields |
| `Base64.DecodeEncode` | SecureStorage.kt:102 | decoding the Base64 text of any byte sequence gives back that byte sequence |
| `Base64.EncodeDecode` | SecureStorage.kt:139 | every text the decoder accepts is the encoding of its result, so no two texts decode to the same key |
| `Accounts.ToDto` | SecureStorage.kt:101-106 | the DTO copies public key, name and order unchanged, and its key text decodes back to the account's key bytes |
| `Accounts.EncodeAll` | SecureStorage.kt:100-107 | one DTO per account, the i-th being `ToDto` of the i-th account, and every key of the written list is decodable Base64 |
| `Accounts.FromDto` | SecureStorage.kt:136-149 | public key, name and order are copied; a migrated key is the bytes whose encoding is the stored text; a Base58 key that decodes becomes the decoded bytes; an undecodable Base58 key becomes the empty byte sequence |
| `Accounts.DecodeAll` | SecureStorage.kt:136-150 | one account per stored record: the i-th account is `FromDto` of the i-th record |
| `Accounts.RecordsRoundTrip` | SecureStorage.kt:99-150 | reading back a list written by `saveAccounts` with the flag set gives the same accounts, key bytes included |
| `Accounts.SortByOrder` | SecureStorage.kt:157 | the result is ascending by order and a permutation of the input |
| `Accounts.SortStable` | SecureStorage.kt:157 | the sort is stable: for every order value, the accounts with that order keep their relative order |
| `Accounts.SortSorted` | SecureStorage.kt:157 | a list already ascending by order is returned unchanged |
| `Accounts.MaxOrder` | SecureStorage.kt:93 | none exactly for the empty list; otherwise an order that some account has and no account exceeds |
| `Accounts.NextOrder` | SecureStorage.kt:93 | 0 for an empty list; otherwise one more than the largest order, so larger than every order |
| `Accounts.Appended` | SecureStorage.kt:93 | the appended account keeps the caller's key, public key and name; its order is 0 for an empty list, otherwise one more than the largest order, so larger than every stored order |
| `Accounts.DenseNextOrder` | SecureStorage.kt:93 | when the orders are 0..N-1 the new account gets order N |
| `Accounts.Renumber` | SecureStorage.kt:171 | the accounts keep key, public key and name, in the same sequence, and get orders 0..N-1 |
| `Accounts.IndexOfFirst` | SecureStorage.kt:116 | -1 exactly when no account has the key; otherwise the index of an account with the key and no earlier one has it |
| `Accounts.Find` | SecureStorage.kt:126 | none exactly when no account has the key; otherwise the account at the first index with that key |
| `Accounts.FindAppend` | SecureStorage.kt:94 | after an append, a lookup returns an earlier match if there is one, else the appended account if its key matches |
| `Accounts.AppendNext` | SecureStorage.kt:91-97 | appending with order max+1 to an ascending list leaves it ascending (sorting again changes nothing) and keeps orders 0..N-1 dense |
| `Accounts.ReplaceKeepsOrder` | SecureStorage.kt:116-119 | replacing an account by one with the same order leaves an ascending list ascending and a dense one dense |
| `Accounts.Survivors` | SecureStorage.kt:170-171 | one account fewer, orders 0..N-2; survivor j is the old account j before the removed index and the old account j+1 from it on, with only its order changed |
| `Accounts.RepairIndex` | SecureStorage.kt:175 | the new active index is the removed index when it is still in range, otherwise the last survivor's index, and always a valid index of the survivors |
| `Accounts.RemoveRenumbers` | SecureStorage.kt:169-176 | the survivors are the other accounts in their previous relative order, numbered 0..N-2, unchanged by sorting, and the repaired pointer names one of them |
| `SecureStorage.Store.constructor` | SecureStorage.kt:41-67 | the vault starts from whatever state was persisted before, provided a migrated list holds Base64 keys |
| `SecureStorage.Store.SaveAccounts` | SecureStorage.kt:99-112 | stores one Base64 DTO per account in the same sequence and sets the flag; reading back gives the accounts, and `getAccounts` gives them sorted; the active key and pass-through fields are unchanged |
| `SecureStorage.Store.GetAccounts` | SecureStorage.kt:129-158 | returns the decoded list ascending by order, as a permutation of it; a non-empty legacy list is re-persisted in Base64 and the flag set, otherwise nothing changes; the visible accounts are the same afterwards and no further migration is pending |
| `SecureStorage.Store.SetActiveAccount` | SecureStorage.kt:161-163 | stores the account's public key as active, without checking it, and changes nothing else |
| `SecureStorage.Store.GetActiveAccount` | SecureStorage.kt:124-127 | none when no key is stored, without reading the list; otherwise the first listed account with the stored key, or none; only that read may migrate the list |
| `SecureStorage.Store.SaveAccount` | SecureStorage.kt:91-97 | the list becomes the old sorted list plus the new account with order max+1 (0 when empty), and the new account becomes active; dense orders stay dense; a lookup of the key finds an earlier duplicate if there is one, else the new account |
| `SecureStorage.Store.UpdateAccount` | SecureStorage.kt:114-122 | with a match, only the first matching account takes the new fields and keeps its order, and the list is written back; without a match, only the read's migration may have happened; the active key never changes |
| `SecureStorage.Store.RemoveAccount` | SecureStorage.kt:165-181 | with one account or none, clears everything; otherwise removes the first match, renumbers the survivors 0..N-2 in order, and moves an active pointer at the removed key to the survivor at the removed index (or the last one); orders are dense afterwards in every case |
| `SecureStorage.Store.Clear` | SecureStorage.kt:183 | wipes the accounts, the migration flag, the active key, the biometric flag and the PIN |

## Left out

- `init` (SecureStorage.kt:44-67): master-key construction, the StrongBox
  fallback and the creation of the encrypted preferences file are platform
  cryptography. `lateinit prefs` becomes the requirement that a `Store` object
  exists, that is, its constructor has run.
- Encryption at rest and the atomicity of `prefs.edit` are not modelled. The
  object is used by a single caller and holds no locks.
- Gson serialisation (SecureStorage.kt:109, 133-134) is left out. The DTO list
  is stored directly. An absent `accounts` key and a stored empty list read
  the same in every operation, so both are the empty sequence. A JSON text
  that Gson parses to `null` is not modelled.
- `Base58.decode` is not part of this model. It is the function-valued field
  `Store.legacyDecode`, fixed at construction; `None` stands for Kotlin's
  `null`.
- `android.util.Base64.decode` also accepts texts outside strict RFC 4648
  (for example, it skips characters outside the alphabet). It throws on
  malformed text. The model's decoder is strict, and `Store.Valid()` excludes
  malformed Base64 in a migrated list instead of modelling the exception.
- Biometric and PIN getters and setters (SecureStorage.kt:69-88) pass values
  through with no logic. Only their two fields are kept, for `clear`.
- The `Account` class (private key, public key, name, order) is not part of
  this model beyond those four fields. Its `copy` is Dafny's datatype update.
  Comparing `ByteArray` by identity plays no role, since every comparison in
  the source is by public key.
- `NextOrder`: orders are unbounded integers throughout the model. The 32-bit
  wrap-around of Kotlin's `Int` in `max + 1` (at `Int.MAX_VALUE`, where it
  gives `Int.MIN_VALUE`) is not modelled.
- `Appended`, `AppendNext` and `Store.SaveAccount`: they promise that a new
  account's order is larger than every stored order. In Kotlin that fails when
  the largest order is `Int.MAX_VALUE`, because of the same wrap-around.
