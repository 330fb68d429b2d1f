/** Key recovery by brute force: decrypt under every key 0..25, fold the
    candidate to lower case, split it into words, count the words found in the
    vocabulary, and keep the first candidate with the strictly highest count. */
module KeyRecovery {
  import opened Shift
  import opened Codec

  /** The ASCII characters that Python's str.split() with no separator treats as
      whitespace: tab, line feed, vertical tab, form feed, carriage return, the
      four information separators 0x1C..0x1F, and the space. */
  predicate IsSpace(c: char) {
    9 <= c as int <= 13 || 28 <= c as int <= 32
  }

  predicate NoSpace(w: string) {
    forall i :: 0 <= i < |w| ==> !IsSpace(w[i])
  }

  /** The non-whitespace characters of `s`, in order. */
  function NonSpace(s: string): string
    decreases |s|
  {
    if s == [] then [] else (if IsSpace(s[0]) then [] else [s[0]]) + NonSpace(s[1..])
  }

  /** The words of a split glued back together. */
  function Concat(words: seq<string>): string
    decreases |words|
  {
    if words == [] then [] else words[0] + Concat(words[1..])
  }

  /** ASCII lower-casing of one character. */
  function ToLower(c: char): (r: char)
    ensures !IsUpper(r)
    ensures IsUpper(c) ==> IsLower(r) && Pos(r) == Pos(c)
    ensures !IsUpper(c) ==> r == c
  {
    if IsUpper(c) then (c as int - 'A' as int + 'a' as int) as char else c
  }

  /** Python's str.lower() on ASCII text. */
  function Lowered(s: string): (r: string)
    ensures |r| == |s|
    ensures forall i :: 0 <= i < |r| ==> !IsUpper(r[i])
    ensures forall i :: 0 <= i < |s| && IsUpper(s[i]) ==> IsLower(r[i]) && Pos(r[i]) == Pos(s[i])
    ensures forall i :: 0 <= i < |s| && !IsUpper(s[i]) ==> r[i] == s[i]
  {
    seq(|s|, i requires 0 <= i < |s| => ToLower(s[i]))
  }

  /** Splits `s` on whitespace, `token` being the word read so far. */
  function SplitFrom(s: string, token: string): (r: seq<string>)
    requires NoSpace(token)
    ensures forall j :: 0 <= j < |r| ==> r[j] != [] && NoSpace(r[j])
    ensures Concat(r) == token + NonSpace(s)
    decreases |s|
  {
    if s == [] then
      (if token == [] then [] else [token])
    else if IsSpace(s[0]) then
      var rest := SplitFrom(s[1..], []);
      if token == [] then rest
      else
        assert Concat([token] + rest) == token + Concat(rest) by {
          assert ([token] + rest)[1..] == rest;
        }
        [token] + rest
    else
      var rest := SplitFrom(s[1..], token + [s[0]]);
      assert token + [s[0]] + NonSpace(s[1..]) == token + NonSpace(s);
      rest
  }

  /** Python's str.split() with no separator: the maximal runs of
      non-whitespace characters, with no empty word. */
  function Words(s: string): (r: seq<string>)
    ensures forall j :: 0 <= j < |r| ==> r[j] != [] && NoSpace(r[j])
    ensures Concat(r) == NonSpace(s)
  {
    SplitFrom(s, [])
  }

  /** A run of non-whitespace characters continues the word being read. */
  lemma {:induction false} SplitRun(w: string, token: string)
    requires NoSpace(w) && NoSpace(token)
    ensures SplitFrom(w, token) == if token + w == [] then [] else [token + w]
    decreases |w|
  {
    if w != [] {
      assert NoSpace(token + [w[0]]);
      SplitRun(w[1..], token + [w[0]]);
      assert token + [w[0]] + w[1..] == token + w;
    } else {
      assert token + w == token;
    }
  }

  /** A whitespace character ends the word being read and splits the rest
      independently. */
  lemma {:induction false} SplitAtSpace(a: string, c: char, b: string, token: string)
    requires IsSpace(c) && NoSpace(token)
    ensures SplitFrom(a + [c] + b, token) == SplitFrom(a, token) + SplitFrom(b, [])
    decreases |a|
  {
    var s := a + [c] + b;
    if a == [] {
      assert s[0] == c && s[1..] == b;
    } else {
      assert s[0] == a[0] && s[1..] == a[1..] + [c] + b;
      if IsSpace(a[0]) {
        SplitAtSpace(a[1..], c, b, []);
      } else {
        assert NoSpace(token + [a[0]]);
        SplitAtSpace(a[1..], c, b, token + [a[0]]);
      }
    }
  }

  /** The words of a text that has a whitespace character are the words before
      it followed by the words after it. */
  lemma WordsAtSpace(a: string, c: char, b: string)
    requires IsSpace(c)
    ensures Words(a + [c] + b) == Words(a) + Words(b)
  {
    SplitAtSpace(a, c, b, []);
  }

  /** A non-empty text without whitespace is a single word. */
  lemma WordsOfRun(w: string)
    requires NoSpace(w) && w != []
    ensures Words(w) == [w]
  {
    SplitRun(w, []);
    assert [] + w == w;
  }

  /** The words glued back together with one space between neighbours. */
  function JoinWords(words: seq<string>): string
    decreases |words|
  {
    if words == [] then []
    else if |words| == 1 then words[0]
    else words[0] + [' '] + JoinWords(words[1..])
  }

  /** Splitting a space-joined list of non-empty, whitespace-free words gives
      the list back. */
  lemma {:induction false} WordsOfJoin(words: seq<string>)
    requires forall j :: 0 <= j < |words| ==> words[j] != [] && NoSpace(words[j])
    ensures Words(JoinWords(words)) == words
    decreases |words|
  {
    if words == [] {
      assert Words([]) == [];
    } else if |words| == 1 {
      WordsOfRun(words[0]);
    } else {
      WordsAtSpace(words[0], ' ', JoinWords(words[1..]));
      WordsOfRun(words[0]);
      WordsOfJoin(words[1..]);
      assert [words[0]] + words[1..] == words;
    }
  }

  /** Joining words without upper-case letters gives a text without them. */
  lemma {:induction false} JoinWithoutUpper(words: seq<string>)
    requires forall j, i :: 0 <= j < |words| && 0 <= i < |words[j]| ==> !IsUpper(words[j][i])
    ensures forall i :: 0 <= i < |JoinWords(words)| ==> !IsUpper(JoinWords(words)[i])
    decreases |words|
  {
    if |words| > 1 {
      JoinWithoutUpper(words[1..]);
      var rest := JoinWords(words[1..]);
      forall i | 0 <= i < |JoinWords(words)|
        ensures !IsUpper(JoinWords(words)[i])
      {
        if i < |words[0]| {
          assert JoinWords(words)[i] == words[0][i];
        } else if i > |words[0]| {
          assert JoinWords(words)[i] == rest[i - |words[0]| - 1];
        }
      }
    }
  }

  /** Lower-casing leaves a text without upper-case letters unchanged. */
  lemma LoweredWithoutUpper(s: string)
    requires forall i :: 0 <= i < |s| ==> !IsUpper(s[i])
    ensures Lowered(s) == s
  {
  }

  /** Number of words (every occurrence, not just distinct ones) found in the
      vocabulary. */
  function Matches(words: seq<string>, vocab: seq<string>): (n: nat)
    ensures n <= |words|
    ensures n == 0 <==> forall j :: 0 <= j < |words| ==> words[j] !in vocab
    ensures n == |words| <==> forall j :: 0 <= j < |words| ==> words[j] in vocab
    decreases |words|
  {
    if words == [] then 0
    else
      var init := words[..|words| - 1];
      assert forall j :: 0 <= j < |init| ==> init[j] == words[j];
      Matches(init, vocab) + (if words[|words| - 1] in vocab then 1 else 0)
  }

  /** Gluing non-empty words gives at least one character per word. */
  lemma {:induction false} ConcatLength(words: seq<string>)
    requires forall j :: 0 <= j < |words| ==> words[j] != []
    ensures |Concat(words)| >= |words|
    decreases |words|
  {
    if words != [] {
      ConcatLength(words[1..]);
    }
  }

  /** Dropping whitespace never lengthens a text. */
  lemma {:induction false} NonSpaceLength(s: string)
    ensures |NonSpace(s)| <= |s|
    decreases |s|
  {
    if s != [] {
      NonSpaceLength(s[1..]);
    }
  }

  /** A text has no more words than characters. */
  lemma WordCountBound(s: string)
    ensures |Words(s)| <= |s|
  {
    ConcatLength(Words(s));
    NonSpaceLength(s);
  }

  /** The number of vocabulary words in the candidate decryption under `key`:
      what the counting loop reaches for that key. */
  function Score(cipherText: string, vocab: seq<string>, key: int): (n: nat)
    requires ValidKey(key)
    ensures n <= |cipherText|
  {
    WordCountBound(Lowered(Decrypted(cipherText, key)));
    Matches(Words(Lowered(Decrypted(cipherText, key))), vocab)
  }

  /** Counts, one word at a time, the words of `searchList` found in `vocabList`. */
  method CountVocabMatches(searchList: seq<string>, vocabList: seq<string>)
    returns (currentVocabMatches: nat)
    ensures currentVocabMatches == Matches(searchList, vocabList)
  {
    currentVocabMatches := 0;
    for j := 0 to |searchList|
      invariant currentVocabMatches == Matches(searchList[..j], vocabList)
    {
      assert searchList[..j + 1][..j] == searchList[..j];
      if searchList[j] in vocabList {
        currentVocabMatches := currentVocabMatches + 1;
      }
    }
    assert searchList[..|searchList|] == searchList;
  }

  /** Tries the 26 keys in increasing order and keeps a candidate only when its
      score is strictly greater than the best so far, starting from ("", 0)
      with best score 0. */
  method BruteForceDecryption(cipherText: string, vocabList: seq<string>)
    returns (plainText: string, key: int)
    ensures ValidKey(key)
    ensures forall k :: 0 <= k < AlphabetSize ==>
      Score(cipherText, vocabList, k) <= Score(cipherText, vocabList, key)
    ensures forall k :: 0 <= k < key ==>
      Score(cipherText, vocabList, k) < Score(cipherText, vocabList, key)
    ensures Score(cipherText, vocabList, key) > 0 ==> plainText == Decrypted(cipherText, key)
    ensures plainText == "" && key == 0 <==>
      forall k :: 0 <= k < AlphabetSize ==> Score(cipherText, vocabList, k) == 0
  {
    plainText := "";
    key := 0;
    var bestVocabMatch := 0;
    for i := 0 to AlphabetSize
      invariant ValidKey(key)
      invariant forall k :: 0 <= k < i ==> Score(cipherText, vocabList, k) <= bestVocabMatch
      invariant forall k :: 0 <= k < key ==> Score(cipherText, vocabList, k) < bestVocabMatch
      invariant bestVocabMatch == 0 ==> key == 0 && plainText == ""
      invariant bestVocabMatch > 0 ==>
        key < i && Score(cipherText, vocabList, key) == bestVocabMatch &&
        plainText == Decrypted(cipherText, key)
    {
      var decryptedText := CaesarDecryption(cipherText, i);
      var currentVocabMatches := CountVocabMatches(Words(Lowered(decryptedText)), vocabList);
      assert currentVocabMatches == Score(cipherText, vocabList, i);
      if currentVocabMatches > bestVocabMatch {
        bestVocabMatch := currentVocabMatches;
        key := i;
        plainText := decryptedText;
      }
      forall k | 0 <= k < i + 1
        ensures Score(cipherText, vocabList, k) <= bestVocabMatch
      {
        if k == i {
          assert Score(cipherText, vocabList, k) == currentVocabMatches;
        }
      }
    }
    if bestVocabMatch > 0 {
      EmptyTextScoresZero(vocabList, key);
      assert |plainText| == |cipherText|;
    }
  }

  /** Nothing is matched in an empty text, under any key. */
  lemma {:induction false} EmptyTextScoresZero(vocab: seq<string>, key: int)
    requires ValidKey(key)
    ensures Score("", vocab, key) == 0
  {
    assert Lowered(Decrypted("", key)) == [];
    assert Words([]) == [];
  }

  /** With an empty vocabulary every key scores 0, so the search returns ("", 0). */
  lemma EmptyVocabularyScoresZero(cipherText: string, key: int)
    requires ValidKey(key)
    ensures Score(cipherText, [], key) == 0
  {
  }

  /** Counting distributes over concatenation of word lists: a word that occurs
      twice is counted twice. */
  lemma {:induction false} MatchesAppend(a: seq<string>, b: seq<string>, vocab: seq<string>)
    ensures Matches(a + b, vocab) == Matches(a, vocab) + Matches(b, vocab)
    decreases |b|
  {
    if b == [] {
      assert a + b == a;
    } else {
      var init := b[..|b| - 1];
      assert (a + b)[..|a + b| - 1] == a + init;
      MatchesAppend(a, init, vocab);
    }
  }

  /** Under the key that produced it, a ciphertext scores exactly what its
      plaintext's own words score. */
  lemma {:induction false} TrueKeyScore(plain: string, vocab: seq<string>, key: int)
    requires ValidKey(key)
    ensures Score(Encrypted(plain, key), vocab, key) == Matches(Words(Lowered(plain)), vocab)
  {
    RoundTrip(plain, key);
  }
}
