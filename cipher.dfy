/**
 * The field cipher of backend/user/src/utils/encrypt.ts, modelled by its
 * observable contract rather than by AES: a ciphertext is an envelope that
 * starts with the Base64 text of "Salted__" (the header every CryptoJS
 * passphrase ciphertext carries), and decryption opens the envelope or, for
 * anything that is not one, yields the empty string instead of failing.
 */
module Cipher {
  import opened Text

  const SaltedHeader: string := "U2FsdGVkX1"

  predicate IsCiphertext(s: string) {
    |s| >= |SaltedHeader| && s[..|SaltedHeader|] == SaltedHeader
  }

  function Encrypt(plain: string): (c: string)
    ensures IsCiphertext(c)
  {
    SaltedHeader + plain
  }

  function Decrypt(c: string): (plain: string)
    ensures !IsCiphertext(c) ==> plain == ""
  {
    if IsCiphertext(c) then c[|SaltedHeader|..] else ""
  }

  /** Decrypting what was encrypted gives the original text back. */
  lemma DecryptEncrypt(plain: string)
    ensures Decrypt(Encrypt(plain)) == plain
  {
  }

  /** A ciphertext is never the plaintext it hides. */
  lemma EncryptNeverPlain(plain: string)
    ensures Encrypt(plain) != plain
  {
    assert |Encrypt(plain)| == |plain| + |SaltedHeader|;
  }

  /**
   * Decrypt cannot tell "the original was empty" from "this was not a
   * ciphertext": both come back as "".
   */
  lemma EmptyAmbiguous(garbage: string)
    requires !IsCiphertext(garbage)
    ensures Decrypt(Encrypt("")) == Decrypt(garbage) == ""
  {
  }

  /**
   * Upper-casing a ciphertext (what an `uppercase` schema option does to the
   * stored value) destroys the header, so the value no longer decrypts.
   */
  lemma UpperCasedCiphertextUnreadable(plain: string)
    ensures Decrypt(UpperCase(Encrypt(plain))) == ""
  {
    var c := UpperCase(Encrypt(plain));
    assert c[3] == ToUpper('s') == 'S';
    assert c[..|SaltedHeader|][3] == 'S';
    assert c[..|SaltedHeader|] != SaltedHeader;
  }
}
