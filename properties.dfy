/**
 * Properties of the account store that relate several operations: the
 * password anchor and the local accounts stay consistent over any sequence
 * of operations, an added account reads back as itself, and the accounts a
 * read returns are the ones removeAccount and renameAccount act on.
 */
module StoreProperties {
  import opened Wrappers
  import opened Address
  import opened Crypto
  import opened Schema
  import opened Store

  // ---------------------------------------------------------------- the password anchor

  /** The anchor, when present, is a password encrypted under itself. */
  predicate AnchorSelfSealed(t: Tables)
  {
    0 in t.password ==> t.password[0].Sealed? && t.password[0].plain == t.password[0].password
  }

  /**
   * decryptLocalKey accepts every local account's secret under the anchored
   * password: the text decrypts and parses as JSON. Whether it has the
   * LocalKey shape is not checked, as addAccount does not check it.
   */
  predicate LocalRowsUnderAnchor(t: Tables)
  {
    forall k | k in t.accounts && t.accounts[k].accountType == LocalType ::
      0 in t.password && t.password[0].Sealed? &&
      DecryptLocalKey(t.accounts[k].encryptedData, t.password[0].password).Success?
  }

  /** Every stored address carries the "0x" prefix and is lower-case. */
  predicate NormalisedKeys(t: Tables)
  {
    forall k | k in t.accounts :: HasHexPrefix(k) && ToLowerCase(k) == k
  }

  /** What the store keeps true of its tables when every change goes through its operations. */
  predicate Consistent(t: Tables)
  {
    WellFormed(t) && AnchorSelfSealed(t) && LocalRowsUnderAnchor(t) && NormalisedKeys(t)
  }

  /** The password table holds at most one row. */
  lemma AtMostOneAnchor(t: Tables)
    requires WellFormed(t)
    ensures |t.password| <= 1
    ensures |t.password| == 1 <==> 0 in t.password
  {
    assert forall id | id in t.password.Keys :: id == 0;
    if 0 in t.password {
      assert t.password.Keys == {0};
    } else {
      assert forall id :: id !in t.password;
      assert t.password.Keys == {};
    }
  }

  /** After a successful add with a password there is exactly one anchor, and it accepts that password. */
  lemma OneAnchorAfterPasswordAdd(t: Tables, a: Account, pw: Option<string>, iv: Iv)
    requires WellFormed(t)
    requires Truthy(pw) && AddAccountSpec(t, a, pw, iv).Success?
    ensures |AddAccountSpec(t, a, pw, iv).value.password| == 1
    ensures AnchorAccepts(AddAccountSpec(t, a, pw, iv).value.password, pw.value)
  {
    AtMostOneAnchor(AddAccountSpec(t, a, pw, iv).value);
  }

  /**
   * Once an anchor exists, adding an account that passes validation with
   * another non-empty password is refused, and nothing is written.
   */
  lemma SecondPasswordRejected(t: Tables, a: Account, p: string, q: string, iv: Iv)
    requires AnchorAccepts(t.password, p) && AnchorSelfSealed(t)
    requires q != p && q != ""
    requires Validate(a, Some(q)).Pass?
    ensures AddAccountSpec(t, a, Some(q), iv) == Failure(PasswordMismatch)
  {
    assert t.password[0].password == p;
  }

  /**
   * A duplicate address fails even when the transaction had just created the
   * anchor; the failure discards that anchor with the row.
   */
  lemma DuplicateRollsBackAnchor(t: Tables, a: Account, pw: Option<string>, iv: Iv)
    requires t.password == map[] && Truthy(pw)
    requires Validate(a, pw).Pass?
    requires StoredAddress(a.address) in t.accounts
    ensures AnchoredPassword(t.password, pw, iv) != t.password
    ensures AddAccountSpec(t, a, pw, iv) == Failure(DuplicateAddress)
  {
    assert 0 in AnchoredPassword(t.password, pw, iv);
  }

  /** The checks before the transaction decide alone: the tables and the IV play no part. */
  lemma ValidationPrecedesTransaction(t1: Tables, t2: Tables, a: Account, pw: Option<string>, iv1: Iv, iv2: Iv)
    requires Validate(a, pw).Fail?
    ensures AddAccountSpec(t1, a, pw, iv1) == AddAccountSpec(t2, a, pw, iv2) == Failure(Validate(a, pw).error)
  {
  }

  /** A local account whose secret was sealed under another password is refused before anything is written. */
  lemma LocalSecretUnderOtherPassword(t: Tables, address: string, name: string, k: LocalKey, p: string, q: string, iv: Iv, iv': Iv)
    requires q != p && q != ""
    ensures AddAccountSpec(t, Local(address, name, EncryptLocalKey(k, p, iv)), Some(q), iv') == Failure(IncorrectLocalPassword)
  {
    LocalKeyWrongPassword(k, p, q, iv);
  }

  /** A local account whose secret was sealed under the given password passes validation if its address is valid. */
  lemma LocalSecretUnderSamePassword(address: string, name: string, k: LocalKey, p: string, iv: Iv)
    requires IsValidAddress(address) && p != ""
    ensures Validate(Local(address, name, EncryptLocalKey(k, p, iv)), Some(p)) == Pass
  {
    LocalKeyRoundTrip(k, p, iv);
  }

  /**
   * On a fresh database, the first local account added with the password
   * its secret was sealed under is stored under its lower-cased address, and
   * its password becomes the anchor.
   */
  lemma FirstLocalAccount(address: string, name: string, k: LocalKey, p: string, iv: Iv, iv': Iv)
    requires IsValidAddress(address) && p != ""
    ensures AddAccountSpec(Tables(map[], map[]), Local(address, name, EncryptLocalKey(k, p, iv)), Some(p), iv')
      == Success(Tables(map[ToLowerCase(address) := Row(ToLowerCase(address), CurrentVersion, LocalType, name, "", EncryptLocalKey(k, p, iv))],
                        map[0 := EncryptAES(p, p, iv')]))
  {
    var a := Local(address, name, EncryptLocalKey(k, p, iv));
    LocalSecretUnderSamePassword(address, name, k, p, iv);
    ValidAddressIsPrefixed(address);
    AddAccountSpecPass(Tables(map[], map[]), a, Some(p), iv');
  }

  /**
   * Once a password is anchored, a further local account sealed under that
   * password, at an address not yet stored, is committed with the anchor
   * left as it was.
   */
  lemma LaterLocalAccount(t: Tables, address: string, name: string, k: LocalKey, p: string, iv: Iv, iv': Iv)
    requires Consistent(t) && 0 in t.password && t.password[0].password == p && p != ""
    requires IsValidAddress(address) && ToLowerCase(address) !in t.accounts
    ensures var r := AddAccountSpec(t, Local(address, name, EncryptLocalKey(k, p, iv)), Some(p), iv');
      && r.Success?
      && r.value.password == t.password
      && r.value.accounts[ToLowerCase(address)].encryptedData == EncryptLocalKey(k, p, iv)
  {
    var a := Local(address, name, EncryptLocalKey(k, p, iv));
    LocalSecretUnderSamePassword(address, name, k, p, iv);
    ValidAddressIsPrefixed(address);
    assert AnchorAccepts(t.password, p);
    AddAccountSpecPass(t, a, Some(p), iv');
  }

  // ---------------------------------------------------------------- sequences of operations

  datatype Op =
    | Add(account: Account, pw: Option<string>, iv: Iv)
    | Remove(account: Account)
    | Rename(account: Account, name: string)

  /** One operation; an add that throws leaves the tables as they were. */
  function Step(t: Tables, op: Op): Tables
  {
    match op
    case Add(a, pw, iv) =>
      (match AddAccountSpec(t, a, pw, iv)
       case Success(t') => t'
       case Failure(_) => t)
    case Remove(a) => RemoveAccountSpec(t, a)
    case Rename(a, name) => RenameAccountSpec(t, a, name)
  }

  function Run(t: Tables, ops: seq<Op>): Tables
    decreases |ops|
  {
    if ops == [] then t else Run(Step(t, ops[0]), ops[1..])
  }

  lemma AddKeepsConsistent(t: Tables, a: Account, pw: Option<string>, iv: Iv)
    requires Consistent(t)
    requires AddAccountSpec(t, a, pw, iv).Success?
    ensures Consistent(AddAccountSpec(t, a, pw, iv).value)
  {
    var t' := AddAccountSpec(t, a, pw, iv).value;
    var key := StoredAddress(a.address);
    AddAccountSpecPass(t, a, pw, iv);
    if Truthy(pw) {
      var anchor := t'.password[0];
      assert DecryptAES(anchor, pw.value) == Success(pw.value);
      assert anchor.Sealed? && anchor.password == pw.value;
    }
    forall k | k in t'.accounts && t'.accounts[k].accountType == LocalType
      ensures 0 in t'.password && t'.password[0].Sealed?
      ensures DecryptLocalKey(t'.accounts[k].encryptedData, t'.password[0].password).Success?
    {
      if k == key {
        assert a.Local?;
        assert Truthy(pw) && DecryptLocalKey(a.encryptedData, pw.value).Success?;
        assert t'.password[0].password == pw.value;
      } else {
        assert t.accounts[k] == t'.accounts[k];
        assert t'.password == t.password;
      }
    }
  }

  lemma RemoveKeepsConsistent(t: Tables, a: Account)
    requires Consistent(t)
    ensures Consistent(RemoveAccountSpec(t, a))
  {
  }

  lemma RenameKeepsConsistent(t: Tables, a: Account, name: string)
    requires Consistent(t)
    ensures Consistent(RenameAccountSpec(t, a, name))
  {
    var t' := RenameAccountSpec(t, a, name);
    forall k | k in t'.accounts
      ensures t'.accounts[k].address == k && t'.accounts[k].accountType == t.accounts[k].accountType
      ensures t'.accounts[k].encryptedData == t.accounts[k].encryptedData
    {
    }
  }

  /** The consistency of the tables survives any sequence of operations. */
  lemma {:induction false} RunKeepsConsistent(t: Tables, ops: seq<Op>)
    requires Consistent(t)
    ensures Consistent(Run(t, ops))
    decreases |ops|
  {
    if ops != [] {
      match ops[0] {
        case Add(a, pw, iv) =>
          if AddAccountSpec(t, a, pw, iv).Success? {
            AddKeepsConsistent(t, a, pw, iv);
          }
        case Remove(a) => RemoveKeepsConsistent(t, a);
        case Rename(a, name) => RenameKeepsConsistent(t, a, name);
      }
      RunKeepsConsistent(Step(t, ops[0]), ops[1..]);
    }
  }

  /** Once written, the anchor is never rewritten or removed by any sequence of operations. */
  lemma {:induction false} RunKeepsAnchor(t: Tables, ops: seq<Op>)
    requires 0 in t.password
    ensures Run(t, ops).password == t.password
    decreases |ops|
  {
    if ops != [] {
      var t' := Step(t, ops[0]);
      assert t'.password == t.password;
      RunKeepsAnchor(t', ops[1..]);
    }
  }

  // ---------------------------------------------------------------- reading back

  /** Every supported row of the table can be decoded. */
  ghost predicate Readable(table: map<string, Row>, keccakHex: string -> string)
  {
    forall k | k in table && IsSupported(table[k].version) :: DecodeRow(table[k], keccakHex).Success?
  }

  lemma ReadSucceeds(rows: seq<Row>, table: map<string, Row>, keccakHex: string -> string)
    requires Lists(rows, table) && Readable(table, keccakHex)
    ensures DecodeRows(rows, keccakHex).Success?
  {
    DecodeRowsSucceeds(rows, keccakHex);
    forall i | 0 <= i < |rows| && IsSupported(rows[i].version)
      ensures DecodeRow(rows[i], keccakHex).Success?
    {
      assert table[rows[i].address] == rows[i];
    }
  }

  /** An add keeps the table readable: the row it writes decodes. */
  lemma AddKeepsReadable(t: Tables, a: Account, pw: Option<string>, iv: Iv, keccakHex: string -> string)
    requires Readable(t.accounts, keccakHex)
    requires AddAccountSpec(t, a, pw, iv).Success?
    ensures Readable(AddAccountSpec(t, a, pw, iv).value.accounts, keccakHex)
  {
    var key := StoredAddress(a.address);
    EncodeDecodeRow(a, key, keccakHex);
  }

  /** A supported row of a successful read is decoded into the result. */
  lemma ListedRowReads(rows: seq<Row>, row: Row, keccakHex: string -> string)
    requires row in rows && IsSupported(row.version)
    requires DecodeRows(rows, keccakHex).Success?
    ensures DecodeRow(row, keccakHex).Success?
    ensures DecodeRow(row, keccakHex).value in DecodeRows(rows, keccakHex).value
  {
    var supported := SupportedRows(rows);
    assert row in supported;
    var j :| 0 <= j < |supported| && supported[j] == row;
    DecodeRowsValues(rows, keccakHex);
    assert DecodeRows(rows, keccakHex).value[j] == DecodeRow(row, keccakHex).value;
  }

  /** The row an add writes is among the rows a later SELECT lists. */
  lemma AddedRowListed(t: Tables, a: Account, pw: Option<string>, iv: Iv, rows: seq<Row>)
    requires AddAccountSpec(t, a, pw, iv).Success?
    requires Lists(rows, AddAccountSpec(t, a, pw, iv).value.accounts)
    ensures EncodeRow(a, StoredAddress(a.address)) in rows
  {
    var table := AddAccountSpec(t, a, pw, iv).value.accounts;
    var key := StoredAddress(a.address);
    assert key in table && table[key] == EncodeRow(a, key);
    var i :| 0 <= i < |rows| && rows[i].address == key;
    assert rows[i] == table[key];
  }

  /** The row written for an account decodes to the account with its checksummed address. */
  lemma StoredRowReads(a: Account, keccakHex: string -> string)
    ensures DecodeRow(EncodeRow(a, StoredAddress(a.address)), keccakHex) == Success(a.(address := ToChecksumAddress(a.address, keccakHex)))
  {
    EncodeDecodeRow(a, StoredAddress(a.address), keccakHex);
    ChecksumOfLowerPrefixed(a.address, keccakHex);
  }

  /**
   * An added account reads back as itself, its address in checksummed form;
   * lower-casing that address gives the stored one.
   */
  lemma AddThenRead(t: Tables, a: Account, pw: Option<string>, iv: Iv, keccakHex: string -> string, rows: seq<Row>)
    requires Readable(t.accounts, keccakHex)
    requires AddAccountSpec(t, a, pw, iv).Success?
    requires Lists(rows, AddAccountSpec(t, a, pw, iv).value.accounts)
    ensures DecodeRows(rows, keccakHex).Success?
    ensures a.(address := ToChecksumAddress(a.address, keccakHex)) in DecodeRows(rows, keccakHex).value
    ensures ToLowerCase(ToChecksumAddress(a.address, keccakHex)) == StoredAddress(a.address)
  {
    AddKeepsReadable(t, a, pw, iv, keccakHex);
    ReadSucceeds(rows, AddAccountSpec(t, a, pw, iv).value.accounts, keccakHex);
    AddedRowListed(t, a, pw, iv, rows);
    ListedRowReads(rows, EncodeRow(a, StoredAddress(a.address)), keccakHex);
    StoredRowReads(a, keccakHex);
    ChecksumLowersToPrefixed(a.address, keccakHex);
  }

  /** In a table keyed by address, the rows an account matches are the one under its lower-cased address, if the type agrees. */
  lemma MatchesOnlyKey(table: map<string, Row>, key: string, a: Account)
    requires forall k | k in table :: table[k].address == k
    requires key in table && ToLowerCase(a.address) == key && table[key].accountType == TypeTag(a)
    ensures forall k | k in table :: Matches(table[k], a) <==> k == key
  {
  }

  /**
   * In a table extended by one row under a new key, removing by an account
   * that matches that row gives back the table before, and renaming renames
   * that row alone.
   */
  lemma RemoveRenameNewRow(t: Tables, key: string, row: Row, read: Account, name: string)
    requires WellFormed(t) && key !in t.accounts
    requires row.address == key && ToLowerCase(read.address) == key && row.accountType == TypeTag(read)
    ensures RemoveAccountSpec(t.(accounts := t.accounts[key := row]), read) == t
    ensures RenameAccountSpec(t.(accounts := t.accounts[key := row]), read, name)
      == t.(accounts := t.accounts[key := row.(name := name)])
  {
    var t' := t.(accounts := t.accounts[key := row]);
    MatchesOnlyKey(t'.accounts, key, read);
    assert RemoveAccountSpec(t', read).accounts == t.accounts;
    assert RenameAccountSpec(t', read, name).accounts == t.accounts[key := row.(name := name)];
  }

  /** Removing the account as read back after an add deletes exactly the row the add wrote. */
  lemma RemoveAfterAdd(t: Tables, a: Account, pw: Option<string>, iv: Iv, keccakHex: string -> string)
    requires WellFormed(t)
    requires AddAccountSpec(t, a, pw, iv).Success?
    ensures RemoveAccountSpec(AddAccountSpec(t, a, pw, iv).value, a.(address := ToChecksumAddress(a.address, keccakHex)))
      == AddAccountSpec(t, a, pw, iv).value.(accounts := t.accounts)
  {
    var t' := AddAccountSpec(t, a, pw, iv).value;
    var key := StoredAddress(a.address);
    ChecksumLowersToPrefixed(a.address, keccakHex);
    RemoveRenameNewRow(t'.(accounts := t.accounts), key, EncodeRow(a, key), a.(address := ToChecksumAddress(a.address, keccakHex)), "");
  }

  /** Renaming the account as read back after an add renames exactly the row the add wrote. */
  lemma RenameAfterAdd(t: Tables, a: Account, pw: Option<string>, iv: Iv, keccakHex: string -> string, name: string)
    requires WellFormed(t)
    requires AddAccountSpec(t, a, pw, iv).Success?
    ensures RenameAccountSpec(AddAccountSpec(t, a, pw, iv).value, a.(address := ToChecksumAddress(a.address, keccakHex)), name)
      == AddAccountSpec(t, a, pw, iv).value.(accounts := t.accounts[StoredAddress(a.address) := EncodeRow(a.(name := name), StoredAddress(a.address))])
  {
    var t' := AddAccountSpec(t, a, pw, iv).value;
    var key := StoredAddress(a.address);
    ChecksumLowersToPrefixed(a.address, keccakHex);
    assert EncodeRow(a.(name := name), key) == EncodeRow(a, key).(name := name);
    RemoveRenameNewRow(t'.(accounts := t.accounts), key, EncodeRow(a, key), a.(address := ToChecksumAddress(a.address, keccakHex)), name);
  }

  /**
   * removeAccount and renameAccount only lower-case the address: an address
   * given without its "0x" prefix matches no stored row, and nothing changes.
   */
  lemma UnprefixedAddressMatchesNothing(t: Tables, a: Account, name: string)
    requires NormalisedKeys(t) && WellFormed(t)
    requires !HasHexPrefix(ToLowerCase(a.address))
    ensures RemoveAccountSpec(t, a) == t
    ensures RenameAccountSpec(t, a, name) == t
  {
    forall k | k in t.accounts
      ensures !Matches(t.accounts[k], a)
    {
      assert HasHexPrefix(t.accounts[k].address);
    }
    NoMatchIsNoOp(t, a, name);
  }

  /** When no row has the account's lower-cased address and type, remove and rename change nothing. */
  lemma NoMatchIsNoOp(t: Tables, a: Account, name: string)
    requires forall k | k in t.accounts :: !Matches(t.accounts[k], a)
    ensures RemoveAccountSpec(t, a) == t
    ensures RenameAccountSpec(t, a, name) == t
  {
    assert RemoveAccountSpec(t, a).accounts == t.accounts;
    assert RenameAccountSpec(t, a, name).accounts == t.accounts;
  }

  /** A row of the same address but another type is neither removed nor renamed. */
  lemma OtherTypeUntouched(t: Tables, a: Account, name: string)
    requires WellFormed(t)
    requires ToLowerCase(a.address) in t.accounts
    requires t.accounts[ToLowerCase(a.address)].accountType != TypeTag(a)
    ensures RemoveAccountSpec(t, a) == t
    ensures RenameAccountSpec(t, a, name) == t
  {
    NoMatchIsNoOp(t, a, name);
  }
}
