/**
 * The account store: the `accounts` table keyed by address, the `password`
 * table holding at most the one password anchor, and the operations
 * readAccounts, addAccount, removeAccount and renameAccount.
 *
 * Each operation has a specification function on the two tables (used by
 * the lemmas in StoreProperties) and a method of class AccountsDB that
 * performs it step by step on the tables and is proved against that function.
 */
module Store {
  import opened Wrappers
  import Json
  import opened Address
  import opened Crypto
  import opened Schema

  /** The contents of the two tables. */
  datatype Tables = Tables(accounts: map<string, Row>, password: map<int, Blob>)

  /**
   * What the schema guarantees of any database file: a row is stored under
   * its own address (the primary key), and the password table's only possible
   * id is 0 (PRIMARY KEY CHECK (id = 0)), so it holds at most one row.
   */
  predicate WellFormed(t: Tables)
  {
    && (forall k | k in t.accounts :: t.accounts[k].address == k)
    && (forall id | id in t.password :: id == 0)
  }

  /** A password table whose only possible id is 0 holds one row, the anchor, or none. */
  lemma PasswordTableShape(password: map<int, Blob>)
    requires forall id | id in password :: id == 0
    ensures |password| == if 0 in password then 1 else 0
    ensures 0 in password ==> password.Values == {password[0]}
  {
    if 0 in password {
      assert forall id :: id in password.Keys <==> id in {0};
      assert password.Keys == {0};
      assert password.Values == {password[0]};
    } else {
      assert forall id :: id !in password;
      assert password.Keys == {};
    }
  }

  /** Why addAccount throws. */
  datatype AddError =
    | MissingPassword
    | IncorrectLocalPassword
    | InvalidAddress
    | PasswordMismatch
    | DuplicateAddress

  /** Errors the two INSERT statements can raise. */
  datatype SqlError = ConstraintViolation

  /** A password argument that JavaScript treats as true: present and not empty. */
  predicate Truthy(pw: Option<string>)
  {
    pw.Some? && pw.value != ""
  }

  /** The address column written for an account: "0x"-prefixed, lower-cased. */
  function StoredAddress(address: string): (r: string)
    ensures HasHexPrefix(r) && ToLowerCase(r) == r
  {
    LowerConcat("0x", StripHexPrefix(address));
    LowerIdempotent(StripHexPrefix(address));
    ToLowerCase(EnsureLeading0x(address))
  }

  // ---------------------------------------------------------------- addAccount

  /** The checks addAccount makes before it opens the transaction, in its order. */
  function Validate(a: Account, pw: Option<string>): (r: Outcome<AddError>)
    ensures r.Pass? <==>
      IsValidAddress(a.address) && (a.Local? ==> Truthy(pw) && DecryptLocalKey(a.encryptedData, pw.value).Success?)
    ensures a.Local? && !Truthy(pw) ==> r == Fail(MissingPassword)
    ensures a.Local? && Truthy(pw) && DecryptLocalKey(a.encryptedData, pw.value).Failure? ==> r == Fail(IncorrectLocalPassword)
    ensures r == Fail(InvalidAddress) <==>
      !IsValidAddress(a.address) && (a.Local? ==> Truthy(pw) && DecryptLocalKey(a.encryptedData, pw.value).Success?)
  {
    if a.Local? && !Truthy(pw) then Fail(MissingPassword)
    else if a.Local? && DecryptLocalKey(a.encryptedData, pw.value).Failure? then Fail(IncorrectLocalPassword)
    else if !IsValidAddress(a.address) then Fail(InvalidAddress)
    else Pass
  }

  /**
   * The password table after the guard's first step: with a password and no
   * anchor yet, the password encrypted under itself is inserted at id 0.
   */
  function AnchoredPassword(password: map<int, Blob>, pw: Option<string>, iv: Iv): (r: map<int, Blob>)
    ensures password != map[] || !Truthy(pw) ==> r == password
    ensures Truthy(pw) ==> 0 in r || (password != map[] && 0 !in password)
  {
    if Truthy(pw) && password == map[] then map[0 := EncryptAES(pw.value, pw.value, iv)] else password
  }

  /** The anchor authenticates p: it decrypts under p to p itself. */
  predicate AnchorAccepts(password: map<int, Blob>, p: string)
  {
    0 in password && DecryptAES(password[0], p) == Success(p)
  }

  /**
   * The password passes the guard: none was given, or there is no anchor yet
   * (the guard creates one from it), or the anchor accepts it.
   */
  predicate PasswordAccepted(password: map<int, Blob>, pw: Option<string>)
  {
    !Truthy(pw) || password == map[] || AnchorAccepts(password, pw.value)
  }

  /** Outcome of the transaction body of addAccount for the row it inserts. */
  function GuardOutcome(t: Tables, row: Row, pw: Option<string>, iv: Iv): (r: Outcome<AddError>)
    ensures r.Pass? ==> row.address !in t.accounts
    ensures r.Pass? && Truthy(pw) ==> AnchorAccepts(AnchoredPassword(t.password, pw, iv), pw.value)
    ensures !PasswordAccepted(t.password, pw) ==> r == Fail(PasswordMismatch)
    ensures PasswordAccepted(t.password, pw) ==>
      r == if row.address in t.accounts then Fail(DuplicateAddress) else Pass
  {
    if Truthy(pw) && !AnchorAccepts(AnchoredPassword(t.password, pw, iv), pw.value) then Fail(PasswordMismatch)
    else if row.address in t.accounts then Fail(DuplicateAddress)
    else Pass
  }

  /**
   * The transaction of addAccount for a row: the new tables, or the error
   * that rolls the transaction back and leaves the tables as they were.
   */
  function InsertSpec(t: Tables, row: Row, pw: Option<string>, iv: Iv): (r: Result<Tables, AddError>)
    ensures !PasswordAccepted(t.password, pw) ==> r == Failure(PasswordMismatch)
    ensures PasswordAccepted(t.password, pw) && row.address in t.accounts ==> r == Failure(DuplicateAddress)
    ensures PasswordAccepted(t.password, pw) && row.address !in t.accounts ==> r.Success?
    ensures r.Success? ==>
      && r.value.accounts.Keys == t.accounts.Keys + {row.address}
      && r.value.accounts[row.address] == row
      && forall k | k in t.accounts :: r.value.accounts[k] == t.accounts[k]
    ensures r.Success? && (!Truthy(pw) || t.password != map[]) ==> r.value.password == t.password
    ensures r.Success? && Truthy(pw) && t.password == map[] ==> r.value.password == map[0 := EncryptAES(pw.value, pw.value, iv)]
    ensures r.Success? && Truthy(pw) ==> AnchorAccepts(r.value.password, pw.value)
  {
    match GuardOutcome(t, row, pw, iv)
    case Fail(e) => Failure(e)
    case Pass => Success(Tables(t.accounts[row.address := row], AnchoredPassword(t.password, pw, iv)))
  }

  /**
   * addAccount(a, pw) on tables t, with iv the random IV a new anchor would
   * be encrypted with: the new tables, or the error; on an error the tables
   * are unchanged.
   */
  function AddAccountSpec(t: Tables, a: Account, pw: Option<string>, iv: Iv): (r: Result<Tables, AddError>)
    ensures r.Success? ==> Validate(a, pw).Pass?
    ensures r.Success? ==>
      && StoredAddress(a.address) !in t.accounts
      && r.value.accounts == t.accounts[StoredAddress(a.address) := EncodeRow(a, StoredAddress(a.address))]
    ensures r.Success? && Truthy(pw) ==> AnchorAccepts(r.value.password, pw.value)
    ensures r.Success? && t.password != map[] ==> r.value.password == t.password
    ensures r.Success? && !Truthy(pw) ==> r.value.password == t.password
    ensures Truthy(pw) && 0 in t.password && DecryptAES(t.password[0], pw.value) != Success(pw.value) ==> r.Failure?
    ensures StoredAddress(a.address) in t.accounts ==> r.Failure?
    ensures WellFormed(t) && r.Success? ==> WellFormed(r.value)
    ensures Validate(a, pw).Pass? && PasswordAccepted(t.password, pw) && StoredAddress(a.address) in t.accounts ==>
      r == Failure(DuplicateAddress)
    ensures Validate(a, pw).Pass? && PasswordAccepted(t.password, pw) && StoredAddress(a.address) !in t.accounts ==> r.Success?
    ensures Validate(a, pw).Pass? && !PasswordAccepted(t.password, pw) ==> r == Failure(PasswordMismatch)
  {
    match Validate(a, pw)
    case Fail(e) => Failure(e)
    case Pass => InsertSpec(t, EncodeRow(a, StoredAddress(a.address)), pw, iv)
  }

  /** Once validation passes, addAccount is its transaction on the encoded row. */
  lemma AddAccountSpecPass(t: Tables, a: Account, pw: Option<string>, iv: Iv)
    requires Validate(a, pw).Pass?
    ensures AddAccountSpec(t, a, pw, iv) == InsertSpec(t, EncodeRow(a, StoredAddress(a.address)), pw, iv)
  {
  }

  // ---------------------------------------------------------------- removeAccount, renameAccount

  /** The WHERE clause of removeAccount and renameAccount: address = lower-cased address AND type = tag. */
  predicate Matches(row: Row, a: Account)
  {
    row.address == ToLowerCase(a.address) && row.accountType == TypeTag(a)
  }

  /** DELETE FROM accounts WHERE address = ? AND type = ? */
  function RemoveAccountSpec(t: Tables, a: Account): (r: Tables)
    ensures r.password == t.password
    ensures forall k | k in r.accounts :: k in t.accounts && r.accounts[k] == t.accounts[k]
    ensures forall k | k in t.accounts :: k in r.accounts <==> !Matches(t.accounts[k], a)
  {
    Tables(map k | k in t.accounts && !Matches(t.accounts[k], a) :: t.accounts[k], t.password)
  }

  /** UPDATE accounts SET name = ? WHERE address = ? AND type = ? */
  function RenameAccountSpec(t: Tables, a: Account, name: string): (r: Tables)
    ensures r.password == t.password && r.accounts.Keys == t.accounts.Keys
    ensures forall k | k in t.accounts ::
      r.accounts[k] == if Matches(t.accounts[k], a) then t.accounts[k].(name := name) else t.accounts[k]
  {
    Tables(map k | k in t.accounts :: if Matches(t.accounts[k], a) then t.accounts[k].(name := name) else t.accounts[k],
           t.password)
  }

  // ---------------------------------------------------------------- readAccounts

  /** rows lists the rows of the table, each exactly once, in some order. */
  ghost predicate Lists(rows: seq<Row>, table: map<string, Row>)
  {
    && (forall i | 0 <= i < |rows| :: rows[i].address in table && table[rows[i].address] == rows[i])
    && (forall i, j | 0 <= i < j < |rows| :: rows[i].address != rows[j].address)
    && (forall k | k in table :: exists i | 0 <= i < |rows| :: rows[i].address == k)
  }

  // ---------------------------------------------------------------- the store

  class AccountsDB {
    var accounts: map<string, Row>
    var password: map<int, Blob>

    ghost function State(): Tables
      reads this
    {
      Tables(accounts, password)
    }

    ghost predicate Valid()
      reads this
    {
      WellFormed(State())
    }

    /** Opens a database file holding the given tables (both empty for a new file). */
    constructor(existing: Tables)
      requires WellFormed(existing)
      ensures Valid() && State() == existing
    {
      accounts := existing.accounts;
      password := existing.password;
    }

    /** SELECT * FROM accounts: every row once, in no particular order. */
    method SelectAccounts() returns (rows: seq<Row>)
      requires Valid()
      ensures Lists(rows, accounts)
    {
      rows := [];
      var remaining := accounts.Keys;
      while remaining != {}
        invariant remaining <= accounts.Keys
        invariant forall i | 0 <= i < |rows| ::
          rows[i].address in accounts && rows[i].address !in remaining && accounts[rows[i].address] == rows[i]
        invariant forall i, j | 0 <= i < j < |rows| :: rows[i].address != rows[j].address
        invariant forall k | k in accounts && k !in remaining :: exists i | 0 <= i < |rows| :: rows[i].address == k
        decreases remaining
      {
        var k :| k in remaining;
        assert accounts[k].address == k by {
          assert State().accounts[k] == accounts[k];
        }
        ghost var prev := rows;
        rows := rows + [accounts[k]];
        forall k' | k' in accounts && k' !in remaining - {k}
          ensures exists i | 0 <= i < |rows| :: rows[i].address == k'
        {
          if k' == k {
            assert rows[|prev|].address == k';
          } else {
            var i :| 0 <= i < |prev| && prev[i].address == k';
            assert rows[i].address == k';
          }
        }
        remaining := remaining - {k};
      }
    }

    /**
     * readAccounts: the decoded supported rows of the table, in the order
     * SELECT returned them (rows); nothing is written, so skipped rows stay.
     */
    method ReadAccounts(keccakHex: string -> string) returns (r: Result<seq<Account>, ReadError>, ghost rows: seq<Row>)
      requires Valid()
      ensures Lists(rows, accounts)
      ensures r == DecodeRows(rows, keccakHex)
    {
      var selected := SelectAccounts();
      rows := selected;
      r := DecodeRows(selected, keccakHex);
    }

    /** SELECT * FROM password */
    method SelectPassword() returns (pws: seq<Blob>)
      requires Valid()
      ensures |pws| == |password|
      ensures forall id | id in password :: password[id] in pws
      ensures forall i | 0 <= i < |pws| :: pws[i] in password.Values
    {
      // The CHECK (id = 0) constraint leaves id 0 as the only possible row.
      assert WellFormed(State());
      PasswordTableShape(password);
      if 0 in password {
        pws := [password[0]];
      } else {
        pws := [];
      }
    }

    /** INSERT INTO password (id, encrypted_password) VALUES (?, ?) */
    method InsertPassword(id: int, encrypted: Blob) returns (r: Outcome<SqlError>)
      modifies this
      ensures accounts == old(accounts)
      ensures r.Pass? <==> id == 0 && id !in old(password)
      ensures password == if r.Pass? then old(password)[id := encrypted] else old(password)
    {
      if id == 0 && id !in password {
        password := password[id := encrypted];
        r := Pass;
      } else {
        r := Fail(ConstraintViolation);
      }
    }

    /** INSERT INTO accounts (...) VALUES (...): the number of rows changed, or the primary-key violation. */
    method InsertAccount(row: Row) returns (r: Result<nat, SqlError>)
      modifies this
      ensures password == old(password)
      ensures r.Success? <==> row.address !in old(accounts)
      ensures r.Success? ==> r.value == 1 && accounts == old(accounts)[row.address := row]
      ensures r.Failure? ==> accounts == old(accounts)
    {
      if row.address in accounts {
        r := Failure(ConstraintViolation);
      } else {
        accounts := accounts[row.address := row];
        r := Success(1);
      }
    }

    /**
     * The body of addAccount's transaction: create the anchor if there is
     * none, check the password against it, insert the row. On a failure the
     * anchor it created is still there; the caller rolls it back.
     */
    method GuardAndInsert(row: Row, pw: Option<string>, iv: Iv) returns (r: Outcome<AddError>)
      requires Valid()
      modifies this
      ensures Valid()
      ensures password == AnchoredPassword(old(password), pw, iv)
      ensures r == GuardOutcome(old(State()), row, pw, iv)
      ensures accounts == if r.Pass? then old(accounts)[row.address := row] else old(accounts)
    {
      if Truthy(pw) {
        var p := pw.value;
        var pws := SelectPassword();
        if |pws| == 0 {
          assert password == map[] by {
            assert forall id :: id !in password;
          }
          var encryptedPassword := EncryptAES(p, p, iv);
          var inserted := InsertPassword(0, encryptedPassword);
          pws := SelectPassword();
        }
        assert WellFormed(State());
        PasswordTableShape(password);
        if |pws| != 1 {
          // The table was empty and received its one row, or already held it.
          assert false;
        }
        // The submitted password must decrypt the anchor to itself.
        var existing := DecryptAES(pws[0], p);
        if existing.Failure? || existing.value != p {
          return Fail(PasswordMismatch);
        }
      }
      var result := InsertAccount(row);
      if result.Failure? {
        return Fail(DuplicateAddress);
      }
      if result.value != 1 {
        // An INSERT that does not fail changes exactly one row.
        assert false;
      }
      r := Pass;
    }

    /** addAccount(a, pw), with iv the IV a new anchor would be encrypted with. */
    method AddAccount(a: Account, pw: Option<string>, iv: Iv) returns (r: Outcome<AddError>)
      requires Valid()
      modifies this
      ensures Valid()
      ensures AddAccountSpec(old(State()), a, pw, iv).Success? ==>
        r == Pass && State() == AddAccountSpec(old(State()), a, pw, iv).value
      ensures AddAccountSpec(old(State()), a, pw, iv).Failure? ==>
        r == Fail(AddAccountSpec(old(State()), a, pw, iv).error) && State() == old(State())
    {
      if a.Local? {
        if !Truthy(pw) {
          return Fail(MissingPassword);
        }
        // The secret must decrypt under the password it comes with.
        var check := DecryptLocalKey(a.encryptedData, pw.value);
        if check.Failure? {
          return Fail(IncorrectLocalPassword);
        }
      }
      if !IsValidAddress(a.address) {
        return Fail(InvalidAddress);
      }
      var row := EncodeRow(a, StoredAddress(a.address));
      AddAccountSpecPass(State(), a, pw, iv);
      r := Transaction(row, pw, iv);
    }

    /**
     * BEGIN; the body; COMMIT when it succeeds, ROLLBACK when it throws,
     * which also removes an anchor the body inserted.
     */
    method Transaction(row: Row, pw: Option<string>, iv: Iv) returns (r: Outcome<AddError>)
      requires Valid()
      modifies this
      ensures Valid()
      ensures InsertSpec(old(State()), row, pw, iv).Success? ==>
        r == Pass && State() == InsertSpec(old(State()), row, pw, iv).value
      ensures InsertSpec(old(State()), row, pw, iv).Failure? ==>
        r == Fail(InsertSpec(old(State()), row, pw, iv).error) && State() == old(State())
    {
      var savedAccounts, savedPassword := accounts, password;
      r := GuardAndInsert(row, pw, iv);
      if r.Fail? {
        accounts, password := savedAccounts, savedPassword;
      }
    }

    /** removeAccount(a) */
    method RemoveAccount(a: Account)
      requires Valid()
      modifies this
      ensures Valid()
      ensures State() == RemoveAccountSpec(old(State()), a)
    {
      var address := ToLowerCase(a.address);
      if address in accounts && accounts[address].accountType == TypeTag(a) {
        accounts := accounts - {address};
      }
    }

    /** renameAccount(a, name) */
    method RenameAccount(a: Account, name: string)
      requires Valid()
      modifies this
      ensures Valid()
      ensures State() == RenameAccountSpec(old(State()), a, name)
    {
      var address := ToLowerCase(a.address);
      if address in accounts && accounts[address].accountType == TypeTag(a) {
        accounts := accounts[address := accounts[address].(name := name)];
      }
    }
  }
}
