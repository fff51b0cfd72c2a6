/** The uniqueness filter: words in which no letter repeats. */
module Uniqueness {
  import opened Seqs
  import opened Dicts

  /** `isUniqueChars`: the word's `Counter` has one key per letter of the word. */
  function IsUniqueChars(w: string): bool {
    |Tally(w).keys| == |w|
  }

  /** A word passes `IsUniqueChars` exactly when no letter occurs in it twice. */
  lemma IsUniqueCharsIff(w: string)
    ensures IsUniqueChars(w) <==> Distinct(w)
  {
    DedupLength(w);
  }

  /** The unique-letter words of the list, in their order, repeats kept. */
  function UniqueWords(words: seq<string>): (r: seq<string>)
    ensures forall w :: w in r ==> w in words && IsUniqueChars(w)
  {
    FilterMembers(words, IsUniqueChars);
    Filter(words, IsUniqueChars)
  }

  /** `words_with_unique_letters`: keeps the unique-letter words, in order. */
  method WordsWithUniqueLetters(words: seq<string>) returns (unique: seq<string>)
    ensures unique == UniqueWords(words)
  {
    unique := [];
    var i := 0;
    while i < |words|
      invariant 0 <= i <= |words|
      invariant unique == Filter(words[..i], IsUniqueChars)
    {
      var word := words[i];
      assert words[..i + 1][..i] == words[..i];
      if IsUniqueChars(word) {
        unique := unique + [word];
      }
      i := i + 1;
    }
    assert words[..i] == words;
  }

  /** The filtered list is a subsequence of the input; it holds exactly the input words
      without a repeated letter, each as many times as the input does. */
  lemma UniqueWordsFacts(words: seq<string>)
    ensures Subseq(UniqueWords(words), words)
    ensures forall w :: w in UniqueWords(words) <==> w in words && Distinct(w)
    ensures forall w :: w in words ==>
      multiset(UniqueWords(words))[w] == if Distinct(w) then multiset(words)[w] else 0
  {
    FilterSubseq(words, IsUniqueChars);
    FilterMembers(words, IsUniqueChars);
    forall w: string ensures IsUniqueChars(w) <==> Distinct(w) {
      IsUniqueCharsIff(w);
    }
  }
}
