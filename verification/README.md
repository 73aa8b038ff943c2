# KeyChain in Dafny

A model of the `KeyChain<T, U>` property wrapper. The wrapper binds a declared variable of
type `U?` to one generic-password item of the platform keychain. The item's account is
the key's raw value, and its data is the JSON encoding of the value. The model also covers
the two bulk helpers the tests use, `countOfKeyChainItems` and `deleteAll`, and it replays
the repository's tests as lemmas.

The model is functional. The keychain's generic-password class is an immutable
`map<string, seq<bv8>>` from account to payload. Every wrapper operation is a function
from the store before it to the store after it:

- `sec_item.dfy` (`SecItem`): the four Security-framework calls the wrapper makes
  (`SecItemAdd`, `SecItemUpdate`, `SecItemDelete`, `SecItemCopyMatching`), each with the
  OSStatus it returns (`errSecSuccess` 0, `errSecDuplicateItem` -25299,
  `errSecItemNotFound` -25300).
- `codec.dfy` (`Codec`): the JSON codec as a pair of total functions, `encode` and
  `decode`. It comes with the predicate `Lawful`, which says that decoding undoes
  encoding. Every statement that needs the codec's round trip takes `Lawful` as a
  hypothesis.
- `json_int.dfy` (`JsonInt`): one concrete lawful codec. It is JSON's encoding of a
  top-level 64-bit `Int`, and the proof that it is lawful is by induction on the digits.
- `keychain.dfy` (`KeyChain`): the wrapper itself. It has `read`, `save`, `update` and
  `delete`, the getter, the setter and the initializer. It also holds the composition
  properties: read-after-write, overwrite, delete, isolation between accounts, and shared
  state between bindings on one account.
- `keychain_manager.dfy` (`KeyChainManager`): `countOfKeyChainItems` and `deleteAll`.
- `keychain_tests.dfy` (`KeyChainTests`): the test enumeration, the test model type, and
  one lemma per test. Each lemma starts from an arbitrary store.

Two behaviours of the code differ from what the wrapper's design suggests, and the model follows the code:

- **Construction writes back.** The initializer ends with `self.wrappedValue = read()`.
  In a class, that assignment runs the setter of the computed property. So construction
  without an initial value is not a plain read. If the item decodes, construction rewrites
  it with the re-encoded value. If the item does not decode, construction deletes it.
  With an initial value, construction saves, reads and then updates. See Findings.
- **The setter's existence test is a successful decode.** The setter checks whether the
  current item decodes, not whether it exists. An item that exists but does not decode is
  replaced through `save`, which deletes and then adds. It is not replaced through
  `update`. Either way the setter is an upsert (`KeyChain.Set`).

## Model

| member | source | states |
|---|---|---|
| SecItem.Add | KeyChain/KeyChain.swift:48-50 | adding under an account that already has an item reports a duplicate and changes nothing; otherwise the item is added, the count grows by one, and no other account changes |
| SecItem.Update | KeyChain/KeyChain.swift:75-80 | an existing item gets the new payload and the accounts stay the same; a missing item reports not-found and changes nothing |
| SecItem.Delete | KeyChain/KeyChain.swift:83-89 | the account is left without an item and the count drops by one if it had one; deleting a missing item reports not-found and changes nothing |
| SecItem.DeleteClass | KeyChainTests/KeyChainTests.swift:243-248 | a delete query that names only the class leaves no item; it reports not-found exactly when there was none |
| SecItem.CopyMatching | KeyChain/KeyChain.swift:54-62 | a match-one query returns the account's payload with success, or not-found and no data |
| SecItem.CopyAll | KeyChainTests/KeyChainTests.swift:214-224 | a match-all query returns exactly the stored account/payload pairs, one per item; it reports not-found exactly when the class is empty |
| KeyChain.Read | KeyChain/KeyChain.swift:53-70 | the result is the decoded payload when the account has an item, and absent when it has none |
| KeyChain.Save | KeyChain/KeyChain.swift:39-51 | because the delete comes first, the add always succeeds; the account then holds the encoded value, no other account changes, and the account occurs once |
| KeyChain.Update | KeyChain/KeyChain.swift:72-81 | an existing item is given the encoded value and the set of accounts is unchanged; with no item, nothing changes and the status is not-found |
| KeyChain.Delete | KeyChain/KeyChain.swift:83-89 | the account has no item afterwards and every other account is unchanged |
| KeyChain.Get | KeyChain/KeyChain.swift:23-26 | the getter reads absent exactly when the account has no item or its payload does not decode, so the two cases cannot be told apart; otherwise it reads the decoded value |
| KeyChain.Set | KeyChain/KeyChain.swift:27-36 | setting absent removes the account's item; setting a value leaves exactly its encoding under the account whichever of update or save is taken; no other account changes; the count moves by one only on a delete of a present item or a write to an absent one |
| KeyChain.Init | KeyChain/KeyChain.swift:15-21 | construction changes no account but the binding's own |
| KeyChain.InitWithValue | KeyChain/KeyChain.swift:15-21 | with an initial value, construction overwrites any prior item with that value's encoding, and the binding then reads that value |
| KeyChain.InitWithoutValue | KeyChain/KeyChain.swift:15-21 | without an initial value, construction rewrites a decodable item with its re-encoded value and deletes a missing or undecodable one; what the binding reads is the same before and after |
| KeyChain.InitErasesUndecodable | KeyChain/KeyChain.swift:20 | construction without an initial value deletes an item whose payload does not decode, shrinking the count by one, which the read-only construction does not do |
| KeyChain.InitReadOnly | KeyChain/KeyChain.swift:15-21 | corrected construction: without an initial value the store is unchanged; with one, the account holds its encoding; either way the binding reads the initial value or the prior value |
| KeyChain.InitAgreesWithReadOnly | KeyChain/KeyChain.swift:15-21 | construction as written and as corrected leave the same store if and only if an initial value is given, the account has no item, or the item is the canonical encoding of the value it decodes to |
| KeyChain.SetThenGet | KeyChain/KeyChain.swift:23-37 | round trip: after setting a value, the binding reads it back |
| KeyChain.SetNoneThenGet | KeyChain/KeyChain.swift:28-31 | after setting absent, the binding reads absent and the account has no item |
| KeyChain.DeleteIsIdempotent | KeyChain/KeyChain.swift:83-89 | deleting a missing account changes nothing, and a second delete changes nothing |
| KeyChain.SecondWriteWins | KeyChain/KeyChain.swift:27-36 | after two writes through one binding the store is as if only the second had happened: an overwrite keeps only the latest value and a delete erases the earlier write |
| KeyChain.UpdateRouteFindsItem | KeyChain/KeyChain.swift:33-35 | the update route is taken only when the item exists, so the update succeeds and the count does not change |
| KeyChain.SetIsolation | KeyChain/KeyChain.swift:42-89 | every query names the binding's account, so a write through one binding never changes what a binding on another account reads |
| KeyChain.SharedAccount | KeyChainTests/KeyChainTests.swift:58-72 | a second binding on the same account reads what the first wrote, decoded with its own codec, and reads absent after the first deletes |
| KeyChain.SharedAccountSameCodec | KeyChainTests/KeyChainTests.swift:195-205 | two bindings on one account with one lawful codec read the same value after a write or a delete through either |
| KeyChainManager.CountOfKeyChainItems | KeyChainTests/KeyChainTests.swift:213-241 | the count is the number of items in the store, and it is zero exactly when the store is empty; the not-found status yields zero |
| KeyChainManager.DeleteAll | KeyChainTests/KeyChainTests.swift:243-248 | after a delete-all no account has an item and the count is zero |
| KeyChainManager.DeleteAllReadsAbsent | KeyChainTests/KeyChainTests.swift:111-127 | after a delete-all every binding reads absent, and a second delete-all changes nothing |
| KeyChainManager.CountAfterSet | KeyChainTests/KeyChainTests.swift:90-108 | a write adds one item exactly when the account had none; a delete removes one exactly when it had one |
| JsonInt.IntCodecLawful | KeyChainTests/KeyChainTests.swift:145-156 | the JSON integer codec decodes every 64-bit integer's encoding back to that integer |
| KeyChainTests.RawValueInjective | KeyChainTests/KeyChainTests.swift:12-19 | distinct test keys name distinct accounts |
| KeyChainTests.SaveAndRead | KeyChainTests/KeyChainTests.swift:32-55 | values written to two keys each read back, and the second write leaves the first key's value in place |
| KeyChainTests.SaveAndReadShared | KeyChainTests/KeyChainTests.swift:58-72 | a binding declared later on the same key reads the value written through the earlier one |
| KeyChainTests.DeleteAfterWrite | KeyChainTests/KeyChainTests.swift:75-87 | a write followed by setting absent reads absent |
| KeyChainTests.DeleteTwoKeys | KeyChainTests/KeyChainTests.swift:90-108 | writing and then deleting two keys leaves both absent and the store equal to the start with those two accounts removed, so from an empty store the count is zero |
| KeyChainTests.DeleteAllScenario | KeyChainTests/KeyChainTests.swift:111-127 | after writes to two keys and a delete-all, both bindings read absent and the count is zero |
| KeyChainTests.StringSaveAndRead | KeyChainTests/KeyChainTests.swift:130-142 | a string binding declared with "123" reads "123", and then reads the value later written through it |
| KeyChainTests.IntSaveAndRead | KeyChainTests/KeyChainTests.swift:145-156 | with the JSON integer codec, 100 is stored as the bytes of "100" and reads back as 100 |
| KeyChainTests.DeleteThroughEitherBinding | KeyChainTests/KeyChainTests.swift:173-208 | string and integer bindings read their written values; a later string binding declared with "123" overwrites the stored string; after both keys are set absent, every binding on them reads absent |
| KeyChainTests.InitErasesForeignPayload | KeyChain/KeyChain.swift:15-21 | an `Int` binding declared without a value on an account holding the JSON string "123" empties that store; the read-only construction leaves it unchanged |

## Left out

- The query dictionaries, the `kSecClass` partitioning and access control are not modelled. The store is the single generic-password class, keyed by account.
- Platform failure statuses other than duplicate and not-found (for example a locked device) are not modelled, because the backend's conditions are outside this model. `KeyChainManager.CountOfKeyChainItems` keeps the branch that turns any such status into zero, but the store model never produces one. The wrapper ignores every status anyway.
- Encoding failure is not modelled. At lines 40 and 73, `try?` turns a failed encode into nil data. The codec's `encode` is total here, because a nil payload's effect depends on the platform layer.
- JSONEncoder and JSONDecoder are abstracted to a `Codec` pair and the `Lawful` hypothesis. They are not verified. `JsonInt` accepts a narrowed JSON number grammar: a minus sign, then digits without a leading zero. It leaves out whitespace, fractions and exponents.
- The `Double` test (KeyChainTests.swift:158-170) is not modelled, because its payloads are floating point.
- KeyChainTests.DeleteThroughEitherBinding: omits the test's `Double` binding on `doubleKey`. It states the string and integer parts only.
- The read-then-update-or-save race between concurrent writers is not modelled. It is concurrency over shared external state.
- The property-wrapper and SwiftUI syntax become explicit `Init`, `Get` and `Set` functions on a store value. The key type `T` is reduced to its raw value, which is all the wrapper uses. The XCTest harness and `tearDown` are not modelled. Each test lemma starts from an arbitrary store, and the count assertions are stated for an empty start, which is the state `tearDown` leaves.

## Findings

| source | as written | input that shows it | evidently intended | confidence | as-written member | corrected member |
|---|---|---|---|---|---|---|
| KeyChain/KeyChain.swift:20 | `self.wrappedValue = read()` in the initializer runs the setter, so the value just read is written back: re-encoded when it decodes, and deleted when it is absent or does not decode | an `Int` binding declared without a value on `stringKey`, while that account holds the JSON string `"123"` written by a `String` binding: construction deletes the string | construction without an initial value only reads and leaves the store unchanged | medium, not executed | KeyChain.Init, KeyChainTests.InitErasesForeignPayload | KeyChain.InitReadOnly |

`KeyChain.InitAgreesWithReadOnly` states exactly when the two constructions coincide. They
coincide whenever an initial value is given, the account has no item, or the item is the
canonical encoding of the value it decodes to. All of the repository's tests only ever
construct bindings on such stores. The test lemmas use the construction as written
(`KeyChain.Init`), because they replay the repository's own tests.
