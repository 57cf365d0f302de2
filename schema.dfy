/**
 * Record schema and versioning of the account store: the account variants,
 * the stored row of the `accounts` table, the row versions still readable,
 * and the encoding of an account into a row (what addAccount inserts) and
 * the decoding of a row into an account (what readAccounts returns).
 */
module Schema {
  import opened Wrappers
  import Json
  import opened Address
  import opened Crypto

  /** Row versions that can still be read; the last one is written by every new row. */
  const SupportedVersions: seq<int> := [1]
  const CurrentVersion: int := SupportedVersions[|SupportedVersions| - 1]

  /** supportedVersions.indexOf(version) >= 0 */
  predicate IsSupported(version: int)
  {
    version in SupportedVersions
  }

  const AddressOnlyType: string := "address-only"
  const LedgerType: string := "ledger"
  const LocalType: string := "local"

  datatype Account =
    | AddressOnly(address: string, name: string)
    | Ledger(address: string, name: string, baseDerivationPath: string, derivationPathIndex: nat)
    | Local(address: string, name: string, encryptedData: Blob)

  /** The `type` discriminator of an account. */
  function TypeTag(a: Account): string
  {
    match a
    case AddressOnly(_, _) => AddressOnlyType
    case Ledger(_, _, _, _) => LedgerType
    case Local(_, _, _) => LocalType
  }

  /** A row of the `accounts` table: (address, version, type, name, data, encrypted_data). */
  datatype Row = Row(address: string, version: int, accountType: string, name: string, data: string, encryptedData: Blob)

  /** The `data` column of a ledger account, before serialisation. */
  function LedgerData(path: string, index: nat): Json.Value
  {
    Json.Object([Json.Member("baseDerivationPath", Json.Str(path)), Json.Member("derivationPathIndex", Json.Num(index))])
  }

  /** The empty `encrypted_data` of accounts that hold no secret. */
  const NoSecret: Blob := Text("")

  /**
   * The row addAccount inserts for an account under the given (already
   * normalised) address: the current version, the variant's tag, the name,
   * ledger metadata as JSON in `data`, a local account's secret in
   * `encrypted_data`.
   */
  function EncodeRow(a: Account, address: string): (r: Row)
    ensures r.address == address && r.version == CurrentVersion && IsSupported(r.version)
    ensures r.accountType == TypeTag(a) && r.name == a.name
    ensures !a.Ledger? ==> r.data == ""
    ensures r.encryptedData == if a.Local? then a.encryptedData else NoSecret
  {
    match a
    case AddressOnly(_, name) => Row(address, CurrentVersion, AddressOnlyType, name, "", NoSecret)
    case Ledger(_, name, path, index) =>
      Row(address, CurrentVersion, LedgerType, name, Json.Stringify(LedgerData(path, index)), NoSecret)
    case Local(_, name, blob) => Row(address, CurrentVersion, LocalType, name, "", blob)
  }

  /** Why readAccounts throws. */
  datatype ReadError =
    | UnrecognizedType(accountType: string)
    | LedgerDataNotJson
    | LedgerFieldsMissing

  /** JSON.parse of a ledger row's `data`, then its two fields. */
  function DecodeLedgerData(data: string): Result<(string, nat), ReadError>
  {
    match Json.Parse(data)
    case None => Failure(LedgerDataNotJson)
    case Some(Atom(_)) => Failure(LedgerFieldsMissing)
    case Some(Object(ms)) =>
      match (Json.Get(ms, "baseDerivationPath"), Json.Get(ms, "derivationPathIndex"))
      case (Some(Str(path)), Some(Num(index))) => Success((path, index))
      case _ => Failure(LedgerFieldsMissing)
  }

  /** The account a row reads as, with its address in checksummed form. */
  function DecodeRow(r: Row, keccakHex: string -> string): (res: Result<Account, ReadError>)
    ensures res.Success? ==> TypeTag(res.value) == r.accountType && res.value.name == r.name
    ensures res.Success? ==> res.value.address == ToChecksumAddress(r.address, keccakHex)
    ensures res.Failure? && res.error.UnrecognizedType? ==> r.accountType !in {AddressOnlyType, LedgerType, LocalType}
  {
    var address := ToChecksumAddress(r.address, keccakHex);
    if r.accountType == AddressOnlyType then Success(AddressOnly(address, r.name))
    else if r.accountType == LedgerType then
      match DecodeLedgerData(r.data)
      case Failure(e) => Failure(e)
      case Success((path, index)) => Success(Ledger(address, r.name, path, index))
    else if r.accountType == LocalType then Success(Local(address, r.name, r.encryptedData))
    else Failure(UnrecognizedType(r.accountType))
  }

  /** The rows whose version is supported, in their original order. */
  function SupportedRows(rows: seq<Row>): (r: seq<Row>)
    ensures |r| <= |rows|
    ensures forall i | 0 <= i < |r| :: IsSupported(r[i].version) && r[i] in rows
    ensures forall i | 0 <= i < |rows| && IsSupported(rows[i].version) :: rows[i] in r
  {
    if rows == [] then []
    else if IsSupported(rows[0].version) then [rows[0]] + SupportedRows(rows[1..])
    else SupportedRows(rows[1..])
  }

  /** Filtering the supported rows keeps their order: it distributes over concatenation. */
  lemma {:induction false} SupportedRowsAppend(xs: seq<Row>, ys: seq<Row>)
    ensures SupportedRows(xs + ys) == SupportedRows(xs) + SupportedRows(ys)
  {
    if xs != [] {
      assert (xs + ys)[1..] == xs[1..] + ys;
      SupportedRowsAppend(xs[1..], ys);
    } else {
      assert xs + ys == ys;
    }
  }

  /**
   * readAccounts over the rows SELECT returned: unsupported rows are skipped,
   * the others decoded in order; the first row that cannot be decoded makes
   * the whole read fail. DecodeRowsSucceeds, DecodeRowsValues and
   * DecodeRowsFailure state what it computes.
   */
  function DecodeRows(rows: seq<Row>, keccakHex: string -> string): (r: Result<seq<Account>, ReadError>)
    ensures r.Success? ==> |r.value| <= |rows|
  {
    if rows == [] then Success([])
    else
      var tail := DecodeRows(rows[1..], keccakHex);
      if !IsSupported(rows[0].version) then tail
      else
        match DecodeRow(rows[0], keccakHex)
        case Failure(e) => Failure(e)
        case Success(a) =>
          match tail
          case Failure(e) => Failure(e)
          case Success(accounts) => Success([a] + accounts)
  }

  // ---------------------------------------------------------------- lemmas

  /** Reading never looks at unsupported rows: dropping them first changes nothing. */
  lemma {:induction false} DecodeRowsSkipsUnsupported(rows: seq<Row>, keccakHex: string -> string)
    ensures DecodeRows(rows, keccakHex) == DecodeRows(SupportedRows(rows), keccakHex)
  {
    if rows != [] {
      DecodeRowsSkipsUnsupported(rows[1..], keccakHex);
      if IsSupported(rows[0].version) {
        var s := SupportedRows(rows);
        assert s == [rows[0]] + SupportedRows(rows[1..]);
        assert s[1..] == SupportedRows(rows[1..]);
      }
    }
  }

  /** The read succeeds exactly when every supported row decodes. */
  lemma {:induction false} DecodeRowsSucceeds(rows: seq<Row>, keccakHex: string -> string)
    ensures DecodeRows(rows, keccakHex).Success? <==>
      forall i | 0 <= i < |rows| && IsSupported(rows[i].version) :: DecodeRow(rows[i], keccakHex).Success?
  {
    if rows != [] {
      DecodeRowsSucceeds(rows[1..], keccakHex);
      assert forall i | 1 <= i < |rows| :: rows[i] == rows[1..][i - 1];
    }
  }

  /** A successful read holds the decoded supported rows, one for one and in order. */
  lemma {:induction false} DecodeRowsValues(rows: seq<Row>, keccakHex: string -> string)
    requires DecodeRows(rows, keccakHex).Success?
    ensures |DecodeRows(rows, keccakHex).value| == |SupportedRows(rows)|
    ensures forall i | 0 <= i < |SupportedRows(rows)| ::
      DecodeRow(SupportedRows(rows)[i], keccakHex) == Success(DecodeRows(rows, keccakHex).value[i])
  {
    if rows != [] {
      var tail := DecodeRows(rows[1..], keccakHex);
      var supported := SupportedRows(rows);
      if IsSupported(rows[0].version) {
        var a := DecodeRow(rows[0], keccakHex);
        assert a.Success? && tail.Success?;
        assert DecodeRows(rows, keccakHex).value == [a.value] + tail.value;
        assert supported == [rows[0]] + SupportedRows(rows[1..]);
      } else {
        assert DecodeRows(rows, keccakHex) == tail;
        assert supported == SupportedRows(rows[1..]);
      }
      DecodeRowsValues(rows[1..], keccakHex);
    }
  }

  /** Every supported row before index i decodes. */
  predicate DecodesBefore(rows: seq<Row>, i: nat, keccakHex: string -> string)
    requires i <= |rows|
  {
    forall j | 0 <= j < i && IsSupported(rows[j].version) :: DecodeRow(rows[j], keccakHex).Success?
  }

  lemma DecodesBeforeShift(rows: seq<Row>, i: nat, keccakHex: string -> string)
    requires rows != [] && i < |rows|
    requires IsSupported(rows[0].version) ==> DecodeRow(rows[0], keccakHex).Success?
    requires DecodesBefore(rows[1..], i, keccakHex)
    ensures DecodesBefore(rows, i + 1, keccakHex)
  {
    forall j | 0 < j < i + 1 && IsSupported(rows[j].version)
      ensures DecodeRow(rows[j], keccakHex).Success?
    {
      assert rows[j] == rows[1..][j - 1];
    }
  }

  /** A failed read reports the error of the first supported row that does not decode. */
  lemma {:induction false} DecodeRowsFailure(rows: seq<Row>, keccakHex: string -> string)
    requires DecodeRows(rows, keccakHex).Failure?
    ensures exists i | 0 <= i < |rows| ::
      && IsSupported(rows[i].version)
      && DecodeRow(rows[i], keccakHex) == Failure(DecodeRows(rows, keccakHex).error)
      && DecodesBefore(rows, i, keccakHex)
  {
    var e := DecodeRows(rows, keccakHex).error;
    if IsSupported(rows[0].version) && DecodeRow(rows[0], keccakHex).Failure? {
      assert DecodeRow(rows[0], keccakHex) == Failure(e);
      assert DecodesBefore(rows, 0, keccakHex);
    } else {
      var tail := rows[1..];
      assert DecodeRows(tail, keccakHex) == Failure(e);
      DecodeRowsFailure(tail, keccakHex);
      var i :| && 0 <= i < |tail|
               && IsSupported(tail[i].version)
               && DecodeRow(tail[i], keccakHex) == Failure(e)
               && DecodesBefore(tail, i, keccakHex);
      DecodesBeforeShift(rows, i, keccakHex);
      assert rows[i + 1] == tail[i];
    }
  }

  lemma LedgerFields(path: string, index: nat)
    ensures Json.Get(LedgerData(path, index).members, "baseDerivationPath") == Some(Json.Str(path))
    ensures Json.Get(LedgerData(path, index).members, "derivationPathIndex") == Some(Json.Num(index))
  {
    var ms := LedgerData(path, index).members;
    assert "baseDerivationPath" != "derivationPathIndex" by {
      assert "baseDerivationPath"[0] != "derivationPathIndex"[0];
    }
    assert ms[..1] == [ms[0]];
    assert Json.LastIndex(ms[..1], "baseDerivationPath") == 0;
  }

  lemma DecodeParsedLedger(data: string, path: string, index: nat)
    requires Json.Parse(data) == Some(LedgerData(path, index))
    ensures DecodeLedgerData(data) == Success((path, index))
  {
    LedgerFields(path, index);
  }

  lemma LedgerDataRoundTrip(path: string, index: nat)
    ensures DecodeLedgerData(Json.Stringify(LedgerData(path, index))) == Success((path, index))
  {
    Json.ParseStringify(LedgerData(path, index));
    DecodeParsedLedger(Json.Stringify(LedgerData(path, index)), path, index);
  }

  /**
   * A row written for an account reads back as the same account, with the
   * checksummed form of the address it was stored under.
   */
  lemma EncodeDecodeRow(a: Account, address: string, keccakHex: string -> string)
    ensures DecodeRow(EncodeRow(a, address), keccakHex) == Success(a.(address := ToChecksumAddress(address, keccakHex)))
  {
    match a
    case AddressOnly(_, _) =>
    case Ledger(_, _, path, index) => LedgerDataRoundTrip(path, index);
    case Local(_, _, _) =>
  }
}
