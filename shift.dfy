/** The per-character shift of the Caesar cipher: one routine per direction and
    letter case. Each adds (or subtracts) the key to the character's code point
    and, when the result leaves the case's alphabet, corrects it once by 26. */
module Shift {

  /** Number of letters in each of the two alphabet rings. */
  const AlphabetSize := 26

  /** Python's `str.isupper()` on a single ASCII character: 'A' to 'Z'. */
  predicate IsUpper(c: char) { 'A' <= c <= 'Z' }

  /** Python's `str.islower()` on a single ASCII character: 'a' to 'z'. */
  predicate IsLower(c: char) { 'a' <= c <= 'z' }

  predicate IsLetter(c: char) { IsUpper(c) || IsLower(c) }

  /** The key space the brute force searches; the single correction by 26 is
      exact on it. */
  predicate ValidKey(key: int) { 0 <= key < AlphabetSize }

  /** Position of a letter within its own alphabet, 'A' and 'a' being 0. */
  function Pos(c: char): (p: nat)
    requires IsLetter(c)
    ensures p < AlphabetSize
  {
    if IsUpper(c) then c as int - 'A' as int else c as int - 'a' as int
  }

  /** Two letters of the same case at the same position are the same letter. */
  lemma SamePosition(a: char, b: char)
    requires (IsUpper(a) && IsUpper(b)) || (IsLower(a) && IsLower(b))
    requires Pos(a) == Pos(b)
    ensures a == b
  {
    assert a as int == b as int;
  }

  /** Forward shift of an upper-case letter: past 'Z' (code 90) it wraps by 26. */
  function EncryptUpper(ch: char, key: int): (r: char)
    requires IsUpper(ch) && ValidKey(key)
    ensures IsUpper(r)
    ensures Pos(r) == (Pos(ch) + key) % AlphabetSize
  {
    var code := ch as int + key;
    if code > 90 then (code - 26) as char else code as char
  }

  /** Forward shift of a lower-case letter: past 'z' (code 122) it wraps by 26. */
  function EncryptLower(ch: char, key: int): (r: char)
    requires IsLower(ch) && ValidKey(key)
    ensures IsLower(r)
    ensures Pos(r) == (Pos(ch) + key) % AlphabetSize
  {
    var code := ch as int + key;
    if code > 122 then (code - 26) as char else code as char
  }

  /** Backward shift of an upper-case letter: below 'A' (code 65) it wraps by 26. */
  function DecryptUpper(ch: char, key: int): (r: char)
    requires IsUpper(ch) && ValidKey(key)
    ensures IsUpper(r)
    ensures Pos(r) == (Pos(ch) - key) % AlphabetSize
  {
    var code := ch as int - key;
    if code < 65 then (code + 26) as char else code as char
  }

  /** Backward shift of a lower-case letter: below 'a' (code 97) it wraps by 26. */
  function DecryptLower(ch: char, key: int): (r: char)
    requires IsLower(ch) && ValidKey(key)
    ensures IsLower(r)
    ensures Pos(r) == (Pos(ch) - key) % AlphabetSize
  {
    var code := ch as int - key;
    if code < 97 then (code + 26) as char else code as char
  }

  /** The single correction by 26 wraps both ends of both alphabets. */
  lemma WrapAroundExamples()
    ensures EncryptUpper('Z', 1) == 'A' && EncryptLower('z', 1) == 'a'
    ensures DecryptUpper('A', 1) == 'Z' && DecryptLower('a', 1) == 'z'
    ensures EncryptUpper('X', 3) == 'A' && EncryptUpper('C', 3) == 'F'
    ensures DecryptLower('c', 3) == 'z' && DecryptLower('f', 3) == 'c'
  {
  }

  /** Shifting a position forward and then back by the same key, or back and
      then forward, returns it. */
  lemma PositionRoundTrip(p: int, key: int)
    requires 0 <= p < AlphabetSize && ValidKey(key)
    ensures ((p + key) % AlphabetSize - key) % AlphabetSize == p
    ensures ((p - key) % AlphabetSize + key) % AlphabetSize == p
  {
    if p + key < AlphabetSize {
      assert (p + key) % AlphabetSize == p + key;
    } else {
      assert (p + key) % AlphabetSize == p + key - AlphabetSize;
    }
    if p - key >= 0 {
      assert (p - key) % AlphabetSize == p - key;
    } else {
      assert (p - key) % AlphabetSize == p - key + AlphabetSize;
    }
  }
}
