/**
 * Address text handling used by the account store: validity
 * (isValidAddress of ethereumjs-util), the 0x prefix (ensureLeading0x and
 * stripHexPrefix), lower-casing (String.prototype.toLowerCase) and EIP-55
 * checksum casing (toChecksumAddress).
 *
 * The Keccak-256 digest that EIP-55 casing depends on is not modelled: it is
 * passed in as a function from text to its hexadecimal digest.
 */
module Address {

  predicate IsHexChar(c: char)
  {
    '0' <= c <= '9' || 'a' <= c <= 'f' || 'A' <= c <= 'F'
  }

  /** isValidAddress: the text matches /^0x[0-9a-fA-F]{40}$/. */
  predicate IsValidAddress(s: string)
  {
    |s| == 42 && s[0] == '0' && s[1] == 'x' && forall i | 2 <= i < 42 :: IsHexChar(s[i])
  }

  predicate HasHexPrefix(s: string)
  {
    |s| >= 2 && s[0] == '0' && s[1] == 'x'
  }

  /** stripHexPrefix: drops a leading "0x" (lower-case x only). */
  function StripHexPrefix(s: string): (r: string)
    ensures HasHexPrefix(s) ==> "0x" + r == s
    ensures !HasHexPrefix(s) ==> r == s
  {
    if HasHexPrefix(s) then s[2..] else s
  }

  /** ensureLeading0x: prepends "0x" unless the text already starts with it. */
  function EnsureLeading0x(s: string): (r: string)
    ensures r == "0x" + StripHexPrefix(s)
    ensures HasHexPrefix(s) <==> r == s
  {
    if HasHexPrefix(s) then s else "0x" + s
  }

  function LowerChar(c: char): char
  {
    if 'A' <= c <= 'Z' then (c as int + 32) as char else c
  }

  function UpperChar(c: char): char
  {
    if 'a' <= c <= 'z' then (c as int - 32) as char else c
  }

  /** toLowerCase, on the ASCII letters (the only letters an address can hold). */
  function ToLowerCase(s: string): (r: string)
    ensures |r| == |s|
  {
    seq(|s|, i requires 0 <= i < |s| => LowerChar(s[i]))
  }

  /** parseInt(c, 16) >= 8 for one digit of the digest; any other character gives NaN, which is not >= 8. */
  predicate HighNibble(c: char)
  {
    '8' <= c <= '9' || 'a' <= c <= 'f' || 'A' <= c <= 'F'
  }

  /** Upper-cases the characters whose digest nibble is 8 or more. */
  function ChecksumCase(lower: string, digest: string): (r: string)
    ensures |r| == |lower|
  {
    seq(|lower|, i requires 0 <= i < |lower| =>
      if i < |digest| && HighNibble(digest[i]) then UpperChar(lower[i]) else lower[i])
  }

  /**
   * toChecksumAddress: the address without its prefix, lower-cased, then
   * cased by the Keccak-256 digest of that lower-cased text, behind "0x".
   */
  function ToChecksumAddress(address: string, keccakHex: string -> string): (r: string)
    ensures HasHexPrefix(r) && |r| == 2 + |StripHexPrefix(address)|
  {
    var lower := ToLowerCase(StripHexPrefix(address));
    "0x" + ChecksumCase(lower, keccakHex(lower))
  }

  // ---------------------------------------------------------------- lemmas

  lemma LowerConcat(a: string, b: string)
    ensures ToLowerCase(a + b) == ToLowerCase(a) + ToLowerCase(b)
  {
    assert forall i | 0 <= i < |a + b| :: ToLowerCase(a + b)[i] == (ToLowerCase(a) + ToLowerCase(b))[i];
  }

  lemma LowerIdempotent(s: string)
    ensures ToLowerCase(ToLowerCase(s)) == ToLowerCase(s)
  {
  }

  /** Lower-casing a checksummed text gives back the lower-cased input of the casing. */
  lemma LowerOfChecksumCase(lower: string, digest: string)
    requires ToLowerCase(lower) == lower
    ensures ToLowerCase(ChecksumCase(lower, digest)) == lower
  {
    forall i | 0 <= i < |lower|
      ensures ToLowerCase(ChecksumCase(lower, digest))[i] == lower[i]
    {
      assert LowerChar(lower[i]) == lower[i] by {
        assert ToLowerCase(lower)[i] == LowerChar(lower[i]);
      }
    }
  }

  /**
   * The checksummed form of an address and the "0x"-prefixed form differ
   * only in letter case.
   */
  lemma {:induction false} ChecksumLowersToPrefixed(address: string, keccakHex: string -> string)
    ensures ToLowerCase(ToChecksumAddress(address, keccakHex)) == ToLowerCase(EnsureLeading0x(address))
  {
    var lower := ToLowerCase(StripHexPrefix(address));
    var cased := ChecksumCase(lower, keccakHex(lower));
    LowerIdempotent(StripHexPrefix(address));
    LowerOfChecksumCase(lower, keccakHex(lower));
    LowerConcat("0x", cased);
    LowerConcat("0x", StripHexPrefix(address));
    assert ToLowerCase("0x") == "0x";
  }

  /** Checksumming the stored lower-case form gives what checksumming the original gives. */
  lemma {:induction false} ChecksumOfLowerPrefixed(address: string, keccakHex: string -> string)
    ensures ToChecksumAddress(ToLowerCase(EnsureLeading0x(address)), keccakHex) == ToChecksumAddress(address, keccakHex)
  {
    var stripped := StripHexPrefix(address);
    var stored := ToLowerCase(EnsureLeading0x(address));
    LowerConcat("0x", stripped);
    assert ToLowerCase("0x") == "0x";
    assert stored == "0x" + ToLowerCase(stripped);
    assert StripHexPrefix(stored) == ToLowerCase(stripped);
    LowerIdempotent(stripped);
  }

  /** A valid address already carries the prefix, so ensureLeading0x leaves it alone. */
  lemma ValidAddressIsPrefixed(s: string)
    requires IsValidAddress(s)
    ensures EnsureLeading0x(s) == s
  {
  }
}
