# Account store of the Celo Terminal wallet, in Dafny

This project models the local account store of the Celo Terminal desktop
wallet (`src/renderer/coreapp/accountsdb.ts`). The store is a SQLite file with
two tables:

- `accounts`: one row per account, keyed by its address. Each row carries a
  row version, an account type (`address-only`, `ledger` or `local`), a name,
  ledger metadata as JSON, and a local account's encrypted secret.
- `password`: at most one row, at id 0. This is the *password anchor*: the
  password encrypted under itself. It makes sure that every local account is
  added under the same password.

The model covers the four operations of the `AccountsDB` class, the row
versioning constants, and the local-key helpers
`encryptLocalKey`/`decryptLocalKey`. It also proves what these operations
promise together.

Modules:

- `Wrappers`: `Option`, `Result` and `Outcome`.
- `Json`: the subset of `JSON.stringify`/`JSON.parse` the store uses, meaning
  flat objects of strings, natural numbers, booleans and null. It proves that
  `parse(stringify(v)) == v`. Member lookup follows JavaScript: with a
  duplicate key, the last one wins.
- `Address`: `isValidAddress`, `ensureLeading0x`, `stripHexPrefix`,
  `toLowerCase` and the EIP-55 `toChecksumAddress`. The Keccak-256 digest is a
  function parameter.
- `Crypto`: `encryptAES`/`decryptAES` as an ideal cipher, and `LocalKey` with
  `encryptLocalKey`/`decryptLocalKey` on top.
- `Schema`: the account variants and the stored row; `supportedVersions` and
  `currentVersion`; the encoding of an account into a row (addAccount) and the
  decoding of rows into accounts (readAccounts).
- `Store`: the two tables as a value (`Tables`) and a specification function
  per operation. It also holds class `AccountsDB`, whose fields are the two
  tables. Its methods perform each operation step by step: the SELECT and
  INSERT statements, the password guard inside the transaction, and the
  rollback that a failure inside the transaction triggers. Each method is
  proved to agree with its specification function.
- `StoreProperties`: lemmas about those functions and about sequences of
  operations.

What the source does, and the model follows:

- addAccount makes its checks in this order:
  1. a local account needs a truthy password (present and not empty);
  2. its secret must decrypt under that password;
  3. the address must match `^0x[0-9a-fA-F]{40}$`.

  Only then does it open the transaction. With a truthy password, for any
  account type, the transaction first creates the anchor if none exists, and
  refuses a password that does not decrypt the anchor to itself. Then it
  inserts the row under `ensureLeading0x(address).toLowerCase()`. A duplicate
  address fails, and the rollback also discards an anchor created in the same
  transaction.
- readAccounts skips rows whose version is not supported, but does not delete
  them. It returns addresses in checksummed form and fails on an unknown type.
- removeAccount and renameAccount match rows on `address.toLowerCase()` and on
  the type. They do not add the `0x` prefix, so an address without it matches
  nothing. A call that matches nothing changes nothing.

Two checks in the source can never fire: `pws.length !== 1` and
`result.changes !== 1`. `AccountsDB.GuardAndInsert` proves both unreachable.

## Model

| member | source | states |
|---|---|---|
| Schema.EncodeRow | src/renderer/coreapp/accountsdb.ts:112-137 | the row written for an account carries the given address, the current (and supported) version, the account's type tag and its name; data is empty except for a Ledger account; encrypted_data is the local account's secret, and empty for every other type |
| Schema.DecodeRow | src/renderer/coreapp/accountsdb.ts:83-106 | a decoded row keeps type and name and has the checksummed address; only an unknown type gives UnrecognizedType |
| Schema.SupportedRows | src/renderer/coreapp/accountsdb.ts:81-82 | the filter keeps exactly the rows whose version is in supportedVersions |
| Schema.SupportedRowsAppend | src/renderer/coreapp/accountsdb.ts:81-82 | the filter keeps the listing order: filtering a concatenation concatenates the filtered parts |
| Schema.DecodeRows | src/renderer/coreapp/accountsdb.ts:81-108 | a read returns at most one account per row |
| Schema.DecodeRowsSkipsUnsupported | src/renderer/coreapp/accountsdb.ts:81-82 | rows of unsupported versions have no effect on the result of a read |
| Schema.DecodeRowsSucceeds | src/renderer/coreapp/accountsdb.ts:81-107 | a read succeeds if and only if every supported row decodes |
| Schema.DecodeRowsValues | src/renderer/coreapp/accountsdb.ts:81-108 | a successful read returns the supported rows decoded, one for one and in order |
| Schema.DecodeRowsFailure | src/renderer/coreapp/accountsdb.ts:82-106 | a failed read reports the error of the first supported row that does not decode; every supported row before it decodes |
| Schema.LedgerDataRoundTrip | src/renderer/coreapp/accountsdb.ts:92-97 | JSON.parse of the ledger data addAccount writes gives back baseDerivationPath and derivationPathIndex |
| Schema.EncodeDecodeRow | src/renderer/coreapp/accountsdb.ts:83-137 | the row written for an account reads back as the same account with the checksummed address |
| Json.ParseStringify | src/renderer/coreapp/accountsdb.ts:129-132 | JSON.parse(JSON.stringify(v)) == v for every value of the modelled subset |
| Address.EnsureLeading0x | src/renderer/coreapp/accountsdb.ts:142 | the result is "0x" followed by the text without its prefix, and it equals the input exactly when the input has the prefix |
| Address.ToChecksumAddress | src/renderer/coreapp/accountsdb.ts:86 | the checksummed address has the 0x prefix and as many hex characters as the input |
| Address.ChecksumLowersToPrefixed | src/renderer/coreapp/accountsdb.ts:86 | lower-casing a checksummed address gives the lower-cased prefixed address |
| Address.ChecksumOfLowerPrefixed | src/renderer/coreapp/accountsdb.ts:142 | checksumming the stored lower-case address gives what checksumming the original gives |
| Address.ValidAddressIsPrefixed | src/renderer/coreapp/accountsdb.ts:139-142 | ensureLeading0x leaves a valid address unchanged |
| Crypto.EncryptAES | src/renderer/coreapp/accountsdb.ts:216-221 | the text decrypts under the same password to the plaintext and fails under every other password |
| Crypto.EncryptionIsRandomised | src/renderer/coreapp/accountsdb.ts:217 | different IVs give different ciphertexts of the same plaintext |
| Crypto.AsLocalKey | src/renderer/coreapp/accountsdb.ts:194-197 | a LocalKey read from JSON has its privateKey member as a string, and its mnemonic is the mnemonic member when that is present and absent when it is not |
| Crypto.DecryptLocalKey | src/renderer/coreapp/accountsdb.ts:204-212 | a failed decryptAES is reported as IncorrectPassword; a key encrypted under the same password decrypts to that key's JSON document; a key encrypted under another password fails with IncorrectPassword |
| Crypto.EncryptLocalKey | src/renderer/coreapp/accountsdb.ts:199-203 | what it returns decrypts under the same password to the key's JSON document, and fails with IncorrectPassword under every other password |
| Crypto.ParseLocalKeyJson | src/renderer/coreapp/accountsdb.ts:199-212 | JSON.parse gives back the document JSON.stringify wrote for every LocalKey |
| Crypto.DecryptAES | src/renderer/coreapp/accountsdb.ts:222-228 | it succeeds only on a ciphertext sealed under the same password, and then returns that ciphertext's plaintext; text that is not a ciphertext fails |
| Crypto.LocalKeyRoundTrip | src/renderer/coreapp/accountsdb.ts:199-212 | decryptLocalKey(encryptLocalKey(k, p), p) gives back k, an absent mnemonic included |
| Crypto.LocalKeyWrongPassword | src/renderer/coreapp/accountsdb.ts:207-211 | under any other password decryptLocalKey reports the single error IncorrectPassword |
| Crypto.AsLocalKeyOfJson | src/renderer/coreapp/accountsdb.ts:199-203 | the object encryptLocalKey stringifies reads back as the same LocalKey |
| Store.StoredAddress | src/renderer/coreapp/accountsdb.ts:142 | the stored address has the 0x prefix and is lower-case |
| Store.PasswordTableShape | src/renderer/coreapp/accountsdb.ts:50-53 | a password table whose only possible id is 0 holds the anchor alone, or nothing |
| Store.Validate | src/renderer/coreapp/accountsdb.ts:115-141 | validation passes exactly when the address is valid and, for a local account, a truthy password decrypts the secret; a local account without a password fails with MissingPassword, one whose secret does not decrypt fails with IncorrectLocalPassword, and otherwise an invalid address fails with InvalidAddress |
| Store.AnchoredPassword | src/renderer/coreapp/accountsdb.ts:144-152 | the anchor is created only when a truthy password meets an empty table; otherwise the table is unchanged |
| Store.GuardOutcome | src/renderer/coreapp/accountsdb.ts:144-175 | a password that the existing anchor refuses fails with PasswordMismatch; when the password is accepted, a stored address fails with DuplicateAddress and a new one passes; on a pass with a password, the anchored table accepts that password |
| Store.InsertSpec | src/renderer/coreapp/accountsdb.ts:143-176 | PasswordMismatch when a present anchor refuses the password; DuplicateAddress when the password is accepted and the address is already stored; success otherwise. On success the row is added under its address and every other row is unchanged; an existing anchor, or the table when no password is given, is kept; the first password becomes an anchor sealed under itself; and the anchored table accepts the password |
| Store.AddAccountSpec | src/renderer/coreapp/accountsdb.ts:111-177 | on success: validation passed; the address was new; the row is inserted under the lower-cased prefixed address; an existing anchor is never rewritten; WellFormed is preserved. Once validation passes, a password the anchor refuses fails with PasswordMismatch, an accepted password at a stored address fails with DuplicateAddress, and an accepted password at a new address commits |
| Store.RemoveAccountSpec | src/renderer/coreapp/accountsdb.ts:179-184 | removes exactly the rows matching (lower-cased address, type) and leaves the rest and the password table alone |
| Store.RenameAccountSpec | src/renderer/coreapp/accountsdb.ts:186-191 | renames exactly the matching rows and changes nothing else |
| Store.AccountsDB.constructor | src/renderer/coreapp/accountsdb.ts:40-53 | opening a database holds the tables of the file |
| Store.AccountsDB.SelectAccounts | src/renderer/coreapp/accountsdb.ts:80 | SELECT lists every row of the table exactly once, in some order |
| Store.AccountsDB.ReadAccounts | src/renderer/coreapp/accountsdb.ts:72-109 | the result is the decoding of a listing of the table, and nothing is written |
| Store.AccountsDB.SelectPassword | src/renderer/coreapp/accountsdb.ts:145 | SELECT on the password table lists it: one entry per row, every stored password among them and nothing else |
| Store.AccountsDB.InsertPassword | src/renderer/coreapp/accountsdb.ts:147-150 | the insert succeeds only at id 0 on an empty table, and then stores the anchor |
| Store.AccountsDB.InsertAccount | src/renderer/coreapp/accountsdb.ts:168-175 | the insert changes one row for a new address and violates the primary key otherwise |
| Store.AccountsDB.GuardAndInsert | src/renderer/coreapp/accountsdb.ts:144-175 | the body of the transaction leaves the anchored password table and reports GuardOutcome; the row is inserted only when it passes |
| Store.AccountsDB.Transaction | src/renderer/coreapp/accountsdb.ts:143-176 | commit gives InsertSpec's tables; on failure both tables are as before the transaction |
| Store.AccountsDB.AddAccount | src/renderer/coreapp/accountsdb.ts:111-177 | the new state and the outcome are those of AddAccountSpec; on any error the tables are unchanged |
| Store.AccountsDB.RemoveAccount | src/renderer/coreapp/accountsdb.ts:179-184 | the new tables are RemoveAccountSpec of the old ones |
| Store.AccountsDB.RenameAccount | src/renderer/coreapp/accountsdb.ts:186-191 | the new tables are RenameAccountSpec of the old ones |
| StoreProperties.AtMostOneAnchor | src/renderer/coreapp/accountsdb.ts:50-53 | the password table holds at most one row, and one exactly when id 0 is present |
| StoreProperties.OneAnchorAfterPasswordAdd | src/renderer/coreapp/accountsdb.ts:144-155 | after a successful add with a password there is exactly one anchor, and it accepts that password |
| StoreProperties.SecondPasswordRejected | src/renderer/coreapp/accountsdb.ts:156-165 | once an anchor for p exists, adding any account that passes validation, with another non-empty password, fails with PasswordMismatch |
| StoreProperties.DuplicateRollsBackAnchor | src/renderer/coreapp/accountsdb.ts:143-176 | a duplicate address fails with DuplicateAddress even when the transaction created the anchor, so that anchor is rolled back |
| StoreProperties.ValidationPrecedesTransaction | src/renderer/coreapp/accountsdb.ts:115-142 | a validation failure gives the same error whatever the tables and the IV |
| StoreProperties.LocalSecretUnderOtherPassword | src/renderer/coreapp/accountsdb.ts:121-122 | a local secret sealed under another password is refused with IncorrectLocalPassword |
| StoreProperties.LocalSecretUnderSamePassword | src/renderer/coreapp/accountsdb.ts:115-141 | a local secret sealed under the given password passes validation when the address is valid |
| StoreProperties.LaterLocalAccount | src/renderer/coreapp/accountsdb.ts:111-177 | once a password is anchored, a local account sealed under it at a new address is committed, and the anchor is left as it was |
| StoreProperties.FirstLocalAccount | src/renderer/coreapp/accountsdb.ts:111-177 | on an empty database the first local account is stored under its lower-cased address and its password becomes the anchor |
| StoreProperties.AddKeepsConsistent | src/renderer/coreapp/accountsdb.ts:111-177 | a successful add keeps the anchor self-sealed, decryptLocalKey accepting every local secret under the anchored password (the text decrypts and parses as JSON) and every key prefixed and lower-case |
| StoreProperties.RemoveKeepsConsistent | src/renderer/coreapp/accountsdb.ts:179-184 | removing keeps the tables consistent |
| StoreProperties.RenameKeepsConsistent | src/renderer/coreapp/accountsdb.ts:186-191 | renaming keeps the tables consistent |
| StoreProperties.RunKeepsConsistent | src/renderer/coreapp/accountsdb.ts:111-191 | every sequence of adds, removes and renames keeps the tables consistent |
| StoreProperties.RunKeepsAnchor | src/renderer/coreapp/accountsdb.ts:144-152 | once the anchor exists no sequence of operations rewrites or removes it |
| StoreProperties.ReadSucceeds | src/renderer/coreapp/accountsdb.ts:80-108 | when every supported row decodes, reading any listing of the table succeeds |
| StoreProperties.AddKeepsReadable | src/renderer/coreapp/accountsdb.ts:111-177 | an add keeps every supported row decodable |
| StoreProperties.ListedRowReads | src/renderer/coreapp/accountsdb.ts:81-107 | a supported row of a successful read is decoded into its result |
| StoreProperties.AddedRowListed | src/renderer/coreapp/accountsdb.ts:80 | the row an add writes appears in any later listing of the table |
| StoreProperties.StoredRowReads | src/renderer/coreapp/accountsdb.ts:83-106 | the row written for an account decodes to the account with the checksum of the address it was given |
| StoreProperties.AddThenRead | src/renderer/coreapp/accountsdb.ts:72-177 | after an add, a read succeeds and contains the account with its checksummed address, and that address lower-cases to the stored one |
| StoreProperties.MatchesOnlyKey | src/renderer/coreapp/accountsdb.ts:181 | in a table keyed by address, an account matches only the row under its lower-cased address |
| StoreProperties.RemoveRenameNewRow | src/renderer/coreapp/accountsdb.ts:179-191 | removing by an account that matches a new row restores the earlier table; renaming touches only that row |
| StoreProperties.RemoveAfterAdd | src/renderer/coreapp/accountsdb.ts:179-184 | removing the account as read back after an add restores the accounts table from before the add |
| StoreProperties.RenameAfterAdd | src/renderer/coreapp/accountsdb.ts:186-191 | renaming the account as read back after an add gives the table the add of the renamed account would give |
| StoreProperties.UnprefixedAddressMatchesNothing | src/renderer/coreapp/accountsdb.ts:182 | remove and rename with an address lacking 0x change nothing on a table of normalised keys |
| StoreProperties.NoMatchIsNoOp | src/renderer/coreapp/accountsdb.ts:179-191 | remove and rename are no-ops when no row matches |
| StoreProperties.OtherTypeUntouched | src/renderer/coreapp/accountsdb.ts:181 | a row of the same address but another type is neither removed nor renamed |

## Left out

- AES-256-CBC, the scrypt derivation of its 32-byte key and the hex `iv:ciphertext` text are not modelled. Encryption is an ideal cipher: a ciphertext decrypts only under the password it was made with. Real CBC decryption under a wrong key can, rarely, pass the padding check and return garbage; the model always fails there.
- The random IV from `crypto.randomBytes` is a parameter of every operation that encrypts.
- Keccak-256 is not modelled. The checksum casing takes the digest as a function parameter.
- Json.Parse: only the subset the store writes is parsed. There is no whitespace, no arrays, no nesting, no negative or fractional numbers, and no `\u` escapes of surrogate halves (characters outside the Basic Multilingual Plane written as pairs). Other documents, valid in JavaScript, fail to parse in the model. So addAccount differs on one input: a local secret whose decrypted text is valid JSON outside this subset passes the source's check at src/renderer/coreapp/accountsdb.ts:122. The model's Validate refuses the same secret with IncorrectLocalPassword. Every secret that encryptLocalKey writes is inside the subset.
- The shape of a local secret: addAccount, at src/renderer/coreapp/accountsdb.ts:122, only asks decryptLocalKey to succeed and discards the result, so the store never checks that the decrypted JSON has the LocalKey shape. The model does the same. StoreProperties.AddKeepsConsistent therefore promises only that every stored local secret decrypts and parses as JSON under the anchored password, not that it reads back as a LocalKey.
- Schema.DecodeRow: a ledger row whose JSON lacks baseDerivationPath or derivationPathIndex, or has the wrong types, gives a read error here. The source returns an account with undefined fields, because its type cast is not checked at run time.
- Schema.Account: derivationPathIndex is a natural number. A JavaScript number can be negative or fractional.
- Address.ToLowerCase: only ASCII letters are lower-cased. `String.prototype.toLowerCase` also maps other Unicode letters.
- Schema.DecodeRows: its own contract gives only the size bound; what it computes is stated by DecodeRowsSucceeds, DecodeRowsValues and DecodeRowsFailure.
- Store.AccountsDB.ReadAccounts: the order of `SELECT *` is unspecified, so the result is stated for some listing of the table, not a fixed order.
- Store.AccountsDB.AddAccount: the row is built with EncodeRow, which carries the per-type switch of the source (data and encrypted_data). The `default: Unreachable code` branch has no counterpart, because the account type is a closed datatype.
- The `accountsDB()` lazy singleton, `close`, the directory creation, the file path from the configuration, the crash dialog and `app.quit` are not modelled. They are I/O. Store.AccountsDB.constructor takes the tables the file holds.
- Concurrency and SQLite's own transaction machinery are not modelled: each operation runs alone.
- The wallet UI and the on-chain state code that call the store are not part of this model.
