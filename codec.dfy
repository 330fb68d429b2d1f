/** The text codec: every character of a string goes through the shift routine of
    its case, and everything that is not an ASCII letter is copied unchanged. */
module Codec {
  import opened Shift

  /** What the encryption loop appends for one character. */
  function EncryptChar(ch: char, key: int): (r: char)
    requires ValidKey(key)
    ensures IsUpper(r) == IsUpper(ch) && IsLower(r) == IsLower(ch)
    ensures IsLetter(ch) ==> Pos(r) == (Pos(ch) + key) % AlphabetSize
    ensures !IsLetter(ch) ==> r == ch
  {
    if IsUpper(ch) then EncryptUpper(ch, key)
    else if IsLower(ch) then EncryptLower(ch, key)
    else ch
  }

  /** What the decryption loop appends for one character. */
  function DecryptChar(ch: char, key: int): (r: char)
    requires ValidKey(key)
    ensures IsUpper(r) == IsUpper(ch) && IsLower(r) == IsLower(ch)
    ensures IsLetter(ch) ==> Pos(r) == (Pos(ch) - key) % AlphabetSize
    ensures !IsLetter(ch) ==> r == ch
  {
    if IsUpper(ch) then DecryptUpper(ch, key)
    else if IsLower(ch) then DecryptLower(ch, key)
    else ch
  }

  /** Decryption undoes encryption on one character, and the other way round. */
  lemma {:induction false} CharRoundTrip(ch: char, key: int)
    requires ValidKey(key)
    ensures DecryptChar(EncryptChar(ch, key), key) == ch
    ensures EncryptChar(DecryptChar(ch, key), key) == ch
  {
    if IsLetter(ch) {
      PositionRoundTrip(Pos(ch), key);
      SamePosition(DecryptChar(EncryptChar(ch, key), key), ch);
      SamePosition(EncryptChar(DecryptChar(ch, key), key), ch);
    }
  }

  /** The ciphertext of `s`: one shifted character per input character. */
  function Encrypted(s: string, key: int): (r: string)
    requires ValidKey(key)
    ensures |r| == |s|
    ensures forall i :: 0 <= i < |s| ==> r[i] == EncryptChar(s[i], key)
    decreases |s|
  {
    if s == [] then [] else Encrypted(s[..|s| - 1], key) + [EncryptChar(s[|s| - 1], key)]
  }

  /** The plaintext of `s`: one back-shifted character per input character. */
  function Decrypted(s: string, key: int): (r: string)
    requires ValidKey(key)
    ensures |r| == |s|
    ensures forall i :: 0 <= i < |s| ==> r[i] == DecryptChar(s[i], key)
    decreases |s|
  {
    if s == [] then [] else Decrypted(s[..|s| - 1], key) + [DecryptChar(s[|s| - 1], key)]
  }

  /** Builds the ciphertext by appending one character per input character. */
  method CaesarEncryption(plainText: string, key: int) returns (cipher: string)
    requires ValidKey(key)
    ensures cipher == Encrypted(plainText, key)
  {
    cipher := "";
    for i := 0 to |plainText|
      invariant cipher == Encrypted(plainText[..i], key)
    {
      var ch := plainText[i];
      if IsUpper(ch) {
        cipher := cipher + [EncryptUpper(ch, key)];
      } else if IsLower(ch) {
        cipher := cipher + [EncryptLower(ch, key)];
      } else {
        cipher := cipher + [ch];
      }
      assert plainText[..i + 1][..i] == plainText[..i];
    }
    assert plainText[..|plainText|] == plainText;
  }

  /** Builds the plaintext by appending one character per ciphertext character. */
  method CaesarDecryption(cipher: string, key: int) returns (decodedCipher: string)
    requires ValidKey(key)
    ensures decodedCipher == Decrypted(cipher, key)
  {
    decodedCipher := "";
    for i := 0 to |cipher|
      invariant decodedCipher == Decrypted(cipher[..i], key)
    {
      var ch := cipher[i];
      if IsUpper(ch) {
        decodedCipher := decodedCipher + [DecryptUpper(ch, key)];
      } else if IsLower(ch) {
        decodedCipher := decodedCipher + [DecryptLower(ch, key)];
      } else {
        decodedCipher := decodedCipher + [ch];
      }
      assert cipher[..i + 1][..i] == cipher[..i];
    }
    assert cipher[..|cipher|] == cipher;
  }

  /** The central contract: decryption inverts encryption under the same key,
      and encryption inverts decryption. */
  lemma {:induction false} RoundTrip(text: string, key: int)
    requires ValidKey(key)
    ensures Decrypted(Encrypted(text, key), key) == text
    ensures Encrypted(Decrypted(text, key), key) == text
  {
    forall i | 0 <= i < |text|
      ensures Decrypted(Encrypted(text, key), key)[i] == text[i]
      ensures Encrypted(Decrypted(text, key), key)[i] == text[i]
    {
      CharRoundTrip(text[i], key);
    }
  }

  /** Key 0 leaves every text unchanged in both directions. */
  lemma {:induction false} KeyZeroIdentity(text: string)
    ensures Encrypted(text, 0) == text
    ensures Decrypted(text, 0) == text
  {
    forall i | 0 <= i < |text|
      ensures Encrypted(text, 0)[i] == text[i]
      ensures Decrypted(text, 0)[i] == text[i]
    {
      if IsLetter(text[i]) {
        SamePosition(Encrypted(text, 0)[i], text[i]);
        SamePosition(Decrypted(text, 0)[i], text[i]);
      }
    }
  }

  /** Decrypting under `key` is encrypting under the complementary key. */
  lemma {:induction false} DecryptIsComplementEncrypt(text: string, key: int)
    requires ValidKey(key)
    ensures Decrypted(text, key) == Encrypted(text, (AlphabetSize - key) % AlphabetSize)
  {
    var back := (AlphabetSize - key) % AlphabetSize;
    forall i | 0 <= i < |text|
      ensures Decrypted(text, key)[i] == Encrypted(text, back)[i]
    {
      if IsLetter(text[i]) {
        var p := Pos(text[i]);
        assert (p - key) % AlphabetSize == (p + back) % AlphabetSize by {
          if key == 0 {
            assert back == 0;
          } else {
            assert back == AlphabetSize - key;
            assert p + back == (p - key) + AlphabetSize;
          }
        }
        SamePosition(Decrypted(text, key)[i], Encrypted(text, back)[i]);
      }
    }
  }
}
