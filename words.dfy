/** Words and vocabularies: what the word-list loader is trusted to deliver. */
module Words {

  const WordLength: nat := 5

  predicate IsLetter(c: char) {
    'a' <= c <= 'z'
  }

  /** A five-letter lower-case word. */
  predicate IsWord(w: string) {
    |w| == WordLength && forall i :: 0 <= i < |w| ==> IsLetter(w[i])
  }

  /** Position of a letter in the 26-entry count table (`ord(c) - 97`). */
  function LetterIndex(c: char): int {
    c as int - 97
  }

  predicate NoDuplicates(words: seq<string>) {
    forall i, j :: 0 <= i < j < |words| ==> words[i] != words[j]
  }

  /**
   * The loader's output: both lists non-empty, made of five-letter words, free of
   * duplicates, and every valid answer is also an allowed guess.
   */
  predicate IsVocabulary(wordBank: seq<string>, validWords: seq<string>) {
    |wordBank| > 0 && |validWords| > 0 &&
    (forall i :: 0 <= i < |wordBank| ==> IsWord(wordBank[i])) &&
    (forall i :: 0 <= i < |validWords| ==> IsWord(validWords[i])) &&
    NoDuplicates(wordBank) && NoDuplicates(validWords) &&
    (forall w :: w in validWords ==> w in wordBank)
  }

  /** The word-to-index mapping: the first position at which `w` occurs. */
  function IndexOf(words: seq<string>, w: string): (i: nat)
    requires w in words
    ensures i < |words| && words[i] == w
    ensures forall j :: 0 <= j < i ==> words[j] != w
  {
    if words[0] == w then 0 else 1 + IndexOf(words[1..], w)
  }

  /** On a duplicate-free list the mapping inverts indexing. */
  lemma IndexOfInverse(words: seq<string>, i: nat)
    requires NoDuplicates(words) && i < |words|
    ensures IndexOf(words, words[i]) == i
  {
  }
}
