/** Worked scenarios for the cipher engine, each derived from the general
    contracts of the shift routines, the codec and key recovery. */
module Scenarios {
  import opened Shift
  import opened Codec
  import opened KeyRecovery

  /** A full-alphabet shift wraps the tail of the alphabet to its head. */
  lemma ShiftAlphabetEnds()
    ensures Encrypted("ABCXYZ", 3) == "DEFABC"
  {
    var plain, cipher := "ABCXYZ", "DEFABC";
    forall i | 0 <= i < |plain|
      ensures Encrypted(plain, 3)[i] == cipher[i]
    {
      SamePosition(Encrypted(plain, 3)[i], cipher[i]);
    }
  }

  /** Letters shift (with 'w' wrapping to 'a'), while spaces and punctuation
      pass through unchanged. */
  lemma MixedText()
    ensures Encrypted("Attack at Dawn!", 4) == "Exxego ex Hear!"
  {
    var plain, cipher := "Attack at Dawn!", "Exxego ex Hear!";
    forall i | 0 <= i < |plain|
      ensures Encrypted(plain, 4)[i] == cipher[i]
    {
      if IsLetter(plain[i]) {
        SamePosition(Encrypted(plain, 4)[i], cipher[i]);
      }
    }
  }

  /** "the cat sat on the mat" lower-cases to itself and splits into its six
      words. */
  lemma CatOnMatWords()
    ensures Words(Lowered("the cat sat on the mat")) == ["the", "cat", "sat", "on", "the", "mat"]
  {
    var words := ["the", "cat", "sat", "on", "the", "mat"];
    assert JoinWords(words) == "the cat sat on the mat";
    JoinWithoutUpper(words);
    LoweredWithoutUpper(JoinWords(words));
    WordsOfJoin(words);
  }

  /** Under the key that encrypted it, "the cat sat on the mat" scores one
      match per word, the repeated "the" counting twice. */
  lemma CatOnMat()
    ensures Score(Encrypted("the cat sat on the mat", 5),
                  ["the", "cat", "sat", "on", "mat"], 5) == 6
  {
    var vocab := ["the", "cat", "sat", "on", "mat"];
    var words := ["the", "cat", "sat", "on", "the", "mat"];
    CatOnMatWords();
    assert Matches(words, vocab) == |words|;
    TrueKeyScore("the cat sat on the mat", vocab, 5);
  }
}
