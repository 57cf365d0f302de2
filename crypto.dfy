/**
 * The encryption engine of the account store: encryptAES/decryptAES and the
 * local-key bundle helpers encryptLocalKey/decryptLocalKey built on them.
 *
 * AES-256-CBC under a scrypt-derived key is modelled as an ideal cipher: a
 * ciphertext remembers the IV, the password its key was derived from and the
 * plaintext, and decryption succeeds exactly when it is given that same
 * password. Any other text (one that encryptAES did not produce) does not
 * decrypt. The random IV is a parameter.
 */
module Crypto {
  import opened Wrappers
  import Json

  /** Bytes of random IV per encryption. */
  const IvLength: nat := 16

  type Byte = bv8
  type Iv = s: seq<Byte> | |s| == IvLength witness seq(16, _ => 0 as bv8)

  /**
   * A stored secret text. Sealed(iv, password, plain) stands for
   * hex(iv) ":" hex(AES-256-CBC(scrypt(password, iv), plain)); Text(raw) for
   * any text encryptAES did not produce, such as the empty string the store
   * writes for accounts without a secret.
   */
  datatype Blob = Sealed(iv: Iv, password: string, plain: string) | Text(raw: string)

  /** decryptAES throws: malformed text, or a padding check that fails under the wrong key. */
  datatype DecryptionFailure = DecryptionFailure

  function EncryptAES(plain: string, password: string, iv: Iv): (b: Blob)
    ensures DecryptAES(b, password) == Success(plain)
    ensures forall other :: other != password ==> DecryptAES(b, other).Failure?
  {
    Sealed(iv, password, plain)
  }

  /**
   * decryptAES: only a text sealed under the same password decrypts, and it
   * gives back the sealed plaintext; any other text fails.
   */
  function DecryptAES(b: Blob, password: string): (r: Result<string, DecryptionFailure>)
    ensures r.Success? ==> b.Sealed? && b.password == password && r.value == b.plain
    ensures b.Text? ==> r.Failure?
  {
    match b
    case Sealed(_, key, plain) => if key == password then Success(plain) else Failure(DecryptionFailure)
    case Text(_) => Failure(DecryptionFailure)
  }

  /** Fresh IVs make two encryptions of the same text under the same password differ. */
  lemma EncryptionIsRandomised(plain: string, password: string, iv1: Iv, iv2: Iv)
    requires iv1 != iv2
    ensures EncryptAES(plain, password, iv1) != EncryptAES(plain, password, iv2)
  {
  }

  // ---------------------------------------------------------------- local keys

  /** The secret bundle of a local account; mnemonic is optional. */
  datatype LocalKey = LocalKey(mnemonic: Option<string>, privateKey: string)

  /** The object JSON.stringify is given: an absent mnemonic is left out of the text. */
  function LocalKeyJson(k: LocalKey): Json.Value
  {
    var m := if k.mnemonic.Some? then [Json.Member("mnemonic", Json.Str(k.mnemonic.value))] else [];
    Json.Object(m + [Json.Member("privateKey", Json.Str(k.privateKey))])
  }

  /**
   * Reading the fields of a decrypted bundle: privateKey must be a string,
   * mnemonic a string or absent.
   */
  function AsLocalKey(v: Json.Value): (r: Option<LocalKey>)
    ensures r.Some? ==> v.Object? && Json.Get(v.members, "privateKey") == Some(Json.Str(r.value.privateKey))
    ensures r.Some? ==>
      Json.Get(v.members, "mnemonic") == if r.value.mnemonic.Some? then Some(Json.Str(r.value.mnemonic.value)) else None
  {
    match v
    case Atom(_) => None
    case Object(ms) =>
      match (Json.Get(ms, "mnemonic"), Json.Get(ms, "privateKey"))
      case (None, Some(Str(pk))) => Some(LocalKey(None, pk))
      case (Some(Str(m)), Some(Str(pk))) => Some(LocalKey(Some(m), pk))
      case _ => None
  }

  /** The bundle object of every local key parses back from its JSON text. */
  lemma ParseLocalKeyJson()
    ensures forall k :: Json.Parse(Json.Stringify(LocalKeyJson(k))) == Some(LocalKeyJson(k))
  {
    forall k
      ensures Json.Parse(Json.Stringify(LocalKeyJson(k))) == Some(LocalKeyJson(k))
    {
      Json.ParseStringify(LocalKeyJson(k));
    }
  }

  /** encryptLocalKey: the bundle decrypts back under the same password and under no other. */
  function EncryptLocalKey(k: LocalKey, password: string, iv: Iv): (r: Blob)
    ensures DecryptLocalKey(r, password) == Success(LocalKeyJson(k))
    ensures forall other :: other != password ==> DecryptLocalKey(r, other) == Failure(IncorrectPassword)
  {
    Json.ParseStringify(LocalKeyJson(k));
    EncryptAES(Json.Stringify(LocalKeyJson(k)), password, iv)
  }

  /** decryptLocalKey's only error: every decryption or parse failure reads "Incorrect password". */
  datatype KeyError = IncorrectPassword

  /**
   * decryptLocalKey: the JSON document inside the blob. The TypeScript
   * LocalKey type is not checked at run time, so any JSON document is
   * returned; AsLocalKey reads the fields.
   */
  function DecryptLocalKey(blob: Blob, password: string): (r: Result<Json.Value, KeyError>)
    ensures DecryptAES(blob, password).Failure? ==> r == Failure(IncorrectPassword)
    ensures forall k, iv :: blob == EncryptAES(Json.Stringify(LocalKeyJson(k)), password, iv) ==> r == Success(LocalKeyJson(k))
    ensures forall k, p, iv :: p != password && blob == EncryptAES(Json.Stringify(LocalKeyJson(k)), p, iv) ==>
      r == Failure(IncorrectPassword)
  {
    ParseLocalKeyJson();
    match DecryptAES(blob, password)
    case Failure(_) => Failure(IncorrectPassword)
    case Success(text) =>
      match Json.Parse(text)
      case None => Failure(IncorrectPassword)
      case Some(v) => Success(v)
  }

  lemma AsLocalKeyOfJson(k: LocalKey)
    ensures AsLocalKey(LocalKeyJson(k)) == Some(k)
  {
    var ms := LocalKeyJson(k).members;
    assert ms[|ms| - 1] == Json.Member("privateKey", Json.Str(k.privateKey));
    assert "privateKey" != "mnemonic" by {
      assert "privateKey"[0] != "mnemonic"[0];
    }
    assert Json.Get(ms, "privateKey") == Some(Json.Str(k.privateKey));
    if k.mnemonic.Some? {
      var front := [Json.Member("mnemonic", Json.Str(k.mnemonic.value))];
      assert ms[..|ms| - 1] == front;
      assert Json.Get(front, "mnemonic") == Some(Json.Str(k.mnemonic.value));
      assert Json.Get(ms, "mnemonic") == Some(Json.Str(k.mnemonic.value));
    } else {
      assert ms[..|ms| - 1] == [];
    }
  }

  /** decryptLocalKey(encryptLocalKey(k, p), p) gives back k. */
  lemma LocalKeyRoundTrip(k: LocalKey, password: string, iv: Iv)
    ensures DecryptLocalKey(EncryptLocalKey(k, password, iv), password) == Success(LocalKeyJson(k))
    ensures AsLocalKey(DecryptLocalKey(EncryptLocalKey(k, password, iv), password).value) == Some(k)
  {
    Json.ParseStringify(LocalKeyJson(k));
    AsLocalKeyOfJson(k);
  }

  /** Under any other password the same blob reports IncorrectPassword. */
  lemma LocalKeyWrongPassword(k: LocalKey, password: string, other: string, iv: Iv)
    requires other != password
    ensures DecryptLocalKey(EncryptLocalKey(k, password, iv), other) == Failure(IncorrectPassword)
  {
  }
}
