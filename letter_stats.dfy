/** Letter statistics of a word list: how often each letter occurs anywhere, first and
    last, and the cost of a letter (its count over a fixed denominator). */
module LetterStats {
  import opened Seqs
  import opened Dicts

  /** `frequency_of_letters`: counts every letter occurrence in every word. */
  method FrequencyOfLetters(words: seq<string>) returns (count: Dict<char, nat>)
    ensures count == Tally(Flatten(words))
  {
    count := Dict([], map[]);
    assert Tally([]) == count;
    var i := 0;
    while i < |words|
      invariant 0 <= i <= |words|
      invariant count == Tally(Flatten(words[..i]))
    {
      count := CountLetters(count, Flatten(words[..i]), words[i]);
      FlattenPrefix(words, i);
      i := i + 1;
    }
    assert words[..i] == words;
  }

  /** The inner loop of `frequency_of_letters`: counts the letters of one more word on top
      of the counts of the letters `seen` so far. */
  method CountLetters(count0: Dict<char, nat>, ghost seen: seq<char>, word: string) returns (count: Dict<char, nat>)
    requires count0 == Tally(seen)
    ensures count == Tally(seen + word)
  {
    count := count0;
    ghost var done := seen;
    var j := 0;
    while j < |word|
      invariant 0 <= j <= |word|
      invariant done == seen + word[..j]
      invariant count == Tally(done)
    {
      var letter := word[j];
      TallySnoc(done, letter);
      count := Bump(count, letter);
      done := done + [letter];
      assert word[..j + 1] == word[..j] + [letter];
      j := j + 1;
    }
    assert word[..j] == word;
  }

  /** The letter counts: every letter of the list is a key and nothing else is; each
      count is the number of occurrences over all words and positions; the counts add up
      to the number of letter slots. */
  lemma FrequencyFacts(words: seq<string>)
    ensures Tally(Flatten(words)).Valid()
    ensures forall w, c :: w in words && c in w ==> c in Tally(Flatten(words)).vals
    ensures forall c :: c in Tally(Flatten(words)).vals ==> exists w :: w in words && c in w
    ensures forall c :: c in Tally(Flatten(words)).vals ==>
      Tally(Flatten(words)).vals[c] == multiset(Flatten(words))[c]
    ensures SumOver(Tally(Flatten(words)).keys, Tally(Flatten(words)).vals) == |Flatten(words)|
  {
    TallySum(Flatten(words));
    FlattenMembers(words);
  }

  /** `cost_of_letters`, as a value: same keys in the same order, each count divided by
      `total` (Python's true division, exact here). */
  function LetterCosts(count: Dict<char, nat>, total: int): Dict<char, real>
    requires count.Valid()
    requires count.keys != [] ==> total != 0
  {
    Dict(count.keys, map c | c in count.vals :: count.vals[c] as real / total as real)
  }

  /** `cost_of_letters`: divides each count by the caller's `total`. Dividing by zero
      fails in the source only when there is a count to divide. */
  method CostOfLetters(count: Dict<char, nat>, total: int) returns (cost: Dict<char, real>)
    requires count.Valid()
    requires count.keys != [] ==> total != 0
    ensures cost == LetterCosts(count, total)
  {
    cost := Dict([], map[]);
    var i := 0;
    while i < |count.keys|
      invariant 0 <= i <= |count.keys|
      invariant cost.keys == count.keys[..i]
      invariant cost.vals == map c | c in count.keys[..i] :: count.vals[c] as real / total as real
    {
      var letter := count.keys[i];
      assert letter !in count.keys[..i];
      cost := Put(cost, letter, count.vals[letter] as real / total as real);
      assert count.keys[..i + 1] == count.keys[..i] + [letter];
      i := i + 1;
    }
    assert count.keys[..i] == count.keys;
  }

  /** The costs form a well-formed dict with the letters of the counts, in the same order,
      and each letter's cost is its count divided by `total`. */
  lemma LetterCostsFacts(count: Dict<char, nat>, total: int)
    requires count.Valid()
    requires count.keys != [] ==> total != 0
    ensures LetterCosts(count, total).Valid()
    ensures LetterCosts(count, total).keys == count.keys
    ensures forall c :: c in LetterCosts(count, total).vals <==> c in count.vals
    ensures forall c :: c in count.vals ==> LetterCosts(count, total).vals[c] == count.vals[c] as real / total as real
  {
  }

  /** The costs add up to the total count divided by `total`. */
  lemma {:induction false} LetterCostsSum(count: Dict<char, nat>, total: int, n: nat)
    requires count.Valid() && total != 0 && n <= |count.keys|
    ensures SumOverReal(count.keys[..n], LetterCosts(count, total).vals)
         == SumOver(count.keys[..n], count.vals) as real / total as real
  {
    if n > 0 {
      LetterCostsSum(count, total, n - 1);
      var k, p := count.keys[n - 1], count.keys[..n - 1];
      assert count.keys[..n][..n - 1] == p;
      var a, b, t := SumOver(p, count.vals) as real, count.vals[k] as real, total as real;
      assert SumOver(count.keys[..n], count.vals) as real == a + b;
      assert SumOverReal(count.keys[..n], LetterCosts(count, total).vals) == a / t + b / t;
      DivAdd(a, b, t);
    }
  }

  /** Dividing two numbers by the same divisor and adding is dividing their sum. */
  lemma DivAdd(a: real, b: real, t: real)
    requires t != 0.0
    ensures a / t + b / t == (a + b) / t
  {
  }

  /** The first letter of each word, in order. */
  function Firsts(words: seq<string>): (r: seq<char>)
    requires forall w :: w in words ==> |w| > 0
    ensures |r| == |words|
    ensures forall i :: 0 <= i < |words| ==> r[i] == words[i][0]
  {
    if words == [] then [] else Firsts(words[..|words| - 1]) + [words[|words| - 1][0]]
  }

  /** The last letter of each word, in order. */
  function Lasts(words: seq<string>): (r: seq<char>)
    requires forall w :: w in words ==> |w| > 0
    ensures |r| == |words|
    ensures forall i :: 0 <= i < |words| ==> r[i] == words[i][|words[i]| - 1]
  {
    if words == [] then [] else Lasts(words[..|words| - 1]) + [words[|words| - 1][|words[|words| - 1]| - 1]]
  }

  lemma FirstsSnoc(words: seq<string>, i: nat)
    requires forall w :: w in words ==> |w| > 0
    requires i < |words|
    ensures Firsts(words[..i + 1]) == Firsts(words[..i]) + [words[i][0]]
  {
    assert words[..i + 1][..i] == words[..i];
  }

  lemma LastsSnoc(words: seq<string>, i: nat)
    requires forall w :: w in words ==> |w| > 0
    requires i < |words|
    ensures Lasts(words[..i + 1]) == Lasts(words[..i]) + [words[i][|words[i]| - 1]]
  {
    assert words[..i + 1][..i] == words[..i];
  }

  /** `starting_frequency`: counts words by their first letter. An empty word has no first
      letter (an IndexError in the source), so every word must be non-empty. */
  method StartingFrequency(words: seq<string>) returns (count: Dict<char, nat>)
    requires forall w :: w in words ==> |w| > 0
    ensures count == Tally(Firsts(words))
  {
    count := Dict([], map[]);
    assert Tally([]) == count;
    var i := 0;
    while i < |words|
      invariant 0 <= i <= |words|
      invariant count == Tally(Firsts(words[..i]))
    {
      var letter := words[i][0];
      FirstsSnoc(words, i);
      TallySnoc(Firsts(words[..i]), letter);
      count := Bump(count, letter);
      i := i + 1;
    }
    assert words[..i] == words;
  }

  /** `ending_frequency`: counts words by their last letter; every word must be non-empty. */
  method EndingFrequency(words: seq<string>) returns (count: Dict<char, nat>)
    requires forall w :: w in words ==> |w| > 0
    ensures count == Tally(Lasts(words))
  {
    count := Dict([], map[]);
    assert Tally([]) == count;
    var i := 0;
    while i < |words|
      invariant 0 <= i <= |words|
      invariant count == Tally(Lasts(words[..i]))
    {
      var letter := words[i][|words[i]| - 1];
      LastsSnoc(words, i);
      TallySnoc(Lasts(words[..i]), letter);
      count := Bump(count, letter);
      i := i + 1;
    }
    assert words[..i] == words;
  }

  /** The first-letter counts: the keys are exactly the first letters, each count is the
      number of words starting with that letter, and the counts add up to the number of
      words. */
  lemma StartingFacts(words: seq<string>)
    requires forall w :: w in words ==> |w| > 0
    ensures Tally(Firsts(words)).Valid()
    ensures forall i :: 0 <= i < |words| ==> words[i][0] in Tally(Firsts(words)).vals
    ensures forall c :: c in Tally(Firsts(words)).vals ==> exists i :: 0 <= i < |words| && words[i][0] == c
    ensures forall c :: c in Tally(Firsts(words)).vals ==>
      Tally(Firsts(words)).vals[c] == multiset(Firsts(words))[c]
    ensures SumOver(Tally(Firsts(words)).keys, Tally(Firsts(words)).vals) == |words|
  {
    var f := Firsts(words);
    TallySum(f);
    forall i | 0 <= i < |words| ensures words[i][0] in Tally(f).vals {
      assert f[i] == words[i][0];
    }
  }

  /** The last-letter counts, as `StartingFacts` states the first-letter ones. */
  lemma EndingFacts(words: seq<string>)
    requires forall w :: w in words ==> |w| > 0
    ensures Tally(Lasts(words)).Valid()
    ensures forall i :: 0 <= i < |words| ==> words[i][|words[i]| - 1] in Tally(Lasts(words)).vals
    ensures forall c :: c in Tally(Lasts(words)).vals ==>
      exists i :: 0 <= i < |words| && words[i][|words[i]| - 1] == c
    ensures forall c :: c in Tally(Lasts(words)).vals ==>
      Tally(Lasts(words)).vals[c] == multiset(Lasts(words))[c]
    ensures SumOver(Tally(Lasts(words)).keys, Tally(Lasts(words)).vals) == |words|
  {
    var f := Lasts(words);
    TallySum(f);
    forall i | 0 <= i < |words| ensures words[i][|words[i]| - 1] in Tally(f).vals {
      assert f[i] == words[i][|words[i]| - 1];
    }
  }
}
