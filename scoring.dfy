/** Word scores: the letter-cost sum of a word (`cost_of_words`) and the first/last letter
    bonus used to break ties for the first pick (`break_ties`). */
module Scoring {
  import opened Seqs
  import opened Dicts

  /** The fixed denominator of the pipeline, standing for the size of the alphabet: `main`
      passes it to `cost_of_letters` and `break_ties` divides by it. */
  const AlphabetSize: int := 26

  /** Every letter of every word has a cost. */
  predicate Covers(cost: map<char, real>, words: seq<string>) {
    forall w, c :: w in words && c in w ==> c in cost
  }

  /** The cost of a word: its letters' costs added up, one term per occurrence. */
  function WordCost(cost: map<char, real>, w: string): real
    requires forall c :: c in w ==> c in cost
  {
    if w == [] then 0.0 else WordCost(cost, w[..|w| - 1]) + cost[w[|w| - 1]]
  }

  /** The cost is additive: the cost of two pieces together is the sum of their costs. */
  lemma {:induction false} WordCostConcat(cost: map<char, real>, a: string, b: string)
    requires forall c :: c in a + b ==> c in cost
    ensures WordCost(cost, a + b) == WordCost(cost, a) + WordCost(cost, b)
  {
    if b != [] {
      var q := b[..|b| - 1];
      assert (a + b)[..|a + b| - 1] == a + q;
      WordCostConcat(cost, a, q);
    } else {
      assert a + b == a;
    }
  }

  /** `cost_of_words` as a value: one key per distinct word, in order of first
      occurrence, mapped to the word's cost. */
  function WordCosts(cost: Dict<char, real>, words: seq<string>): Dict<string, real>
    requires Covers(cost.vals, words)
  {
    Dict(Dedup(words), map w | w in words :: WordCost(cost.vals, w))
  }

  lemma WordCostsSnoc(cost: Dict<char, real>, words: seq<string>, w: string)
    requires Covers(cost.vals, words + [w])
    ensures WordCosts(cost, words + [w]) == Put(WordCosts(cost, words), w, WordCost(cost.vals, w))
  {
    DedupSnoc(words, w);
    WordCostsValsSnoc(cost, words, w);
    assert w in WordCosts(cost, words).vals <==> w in words;
  }

  lemma WordCostsValsSnoc(cost: Dict<char, real>, words: seq<string>, w: string)
    requires Covers(cost.vals, words + [w])
    ensures WordCosts(cost, words + [w]).vals == WordCosts(cost, words).vals[w := WordCost(cost.vals, w)]
  {
    var t := words + [w];
    var m, m' := WordCosts(cost, t).vals, WordCosts(cost, words).vals[w := WordCost(cost.vals, w)];
    assert m.Keys == m'.Keys by {
      forall y ensures y in m <==> y in m' {
        assert y in t <==> y in words || y == w;
      }
    }
    assert m == m';
  }

  /** The word costs dict is well formed; its keys are the listed words, and each value is
      the word's letter-cost sum. */
  lemma WordCostsFacts(cost: Dict<char, real>, words: seq<string>)
    requires Covers(cost.vals, words)
    ensures WordCosts(cost, words).Valid()
    ensures forall w :: w in WordCosts(cost, words).vals <==> w in words
    ensures forall w :: w in words ==> WordCosts(cost, words).vals[w] == WordCost(cost.vals, w)
  {
    DedupMembers(words);
  }

  /** `cost_of_words`: sums the letter costs of each word. A letter without a cost is a
      KeyError in the source, so every letter must have one. */
  method CostOfWords(costLetters: Dict<char, real>, words: seq<string>) returns (costWords: Dict<string, real>)
    requires Covers(costLetters.vals, words)
    ensures costWords == WordCosts(costLetters, words)
  {
    costWords := Dict([], map[]);
    assert WordCosts(costLetters, words[..0]) == costWords;
    var i := 0;
    while i < |words|
      invariant 0 <= i <= |words|
      invariant costWords == WordCosts(costLetters, words[..i])
    {
      var word := words[i];
      assert word in words;
      var cost: real := 0.0;
      var j := 0;
      while j < |word|
        invariant 0 <= j <= |word|
        invariant cost == WordCost(costLetters.vals, word[..j])
      {
        assert word[..j + 1][..j] == word[..j];
        cost := cost + costLetters.vals[word[j]];
        j := j + 1;
      }
      assert word[..j] == word;
      assert words[..i + 1] == words[..i] + [word];
      WordCostsSnoc(costLetters, words[..i], word);
      costWords := Put(costWords, word, cost);
      i := i + 1;
    }
    assert words[..i] == words;
  }

  /** Every word is non-empty and its first and last letters have counts. */
  predicate EndsCounted(words: seq<string>, starting: Dict<char, nat>, ending: Dict<char, nat>) {
    forall i :: 0 <= i < |words| ==> |words[i]| > 0 && words[i][0] in starting.vals && words[i][|words[i]| - 1] in ending.vals
  }

  /** The bonus of a word: its first letter's count and its last letter's count, each
      divided by the alphabet size. */
  function Bonus(w: string, starting: Dict<char, nat>, ending: Dict<char, nat>): real
    requires |w| > 0 && w[0] in starting.vals && w[|w| - 1] in ending.vals
  {
    starting.vals[w[0]] as real / AlphabetSize as real + ending.vals[w[|w| - 1]] as real / AlphabetSize as real
  }

  /** What `break_ties` has built after its first `n` iterations: the first `n` words,
      each put with its raised score. */
  function TieBrokenPrefix(costWords: Dict<string, real>, starting: Dict<char, nat>, ending: Dict<char, nat>, n: nat)
      : Dict<string, real>
    requires costWords.Valid() && n <= |costWords.keys|
    requires EndsCounted(costWords.keys, starting, ending)
  {
    if n == 0 then Dict([], map[])
    else
      var w := costWords.keys[n - 1];
      Put(TieBrokenPrefix(costWords, starting, ending, n - 1), w, costWords.vals[w] + Bonus(w, starting, ending))
  }

  /** `break_ties` as a value: all words put with their raised scores. */
  function TieBroken(costWords: Dict<string, real>, starting: Dict<char, nat>, ending: Dict<char, nat>): Dict<string, real>
    requires costWords.Valid()
    requires EndsCounted(costWords.keys, starting, ending)
  {
    TieBrokenPrefix(costWords, starting, ending, |costWords.keys|)
  }

  /** `break_ties`: adds the first/last letter bonus to every score. An empty word or a
      letter without a count is an error in the source, so neither may occur. */
  method BreakTies(costWords: Dict<string, real>, starting: Dict<char, nat>, ending: Dict<char, nat>)
      returns (costs: Dict<string, real>)
    requires costWords.Valid()
    requires EndsCounted(costWords.keys, starting, ending)
    ensures costs == TieBroken(costWords, starting, ending)
  {
    costs := Dict([], map[]);
    var i := 0;
    while i < |costWords.keys|
      invariant 0 <= i <= |costWords.keys|
      invariant costs == TieBrokenPrefix(costWords, starting, ending, i)
    {
      var word := costWords.keys[i];
      var cost := costWords.vals[word];
      cost := cost + starting.vals[word[0]] as real / AlphabetSize as real;
      cost := cost + ending.vals[word[|word| - 1]] as real / AlphabetSize as real;
      costs := Put(costs, word, cost);
      i := i + 1;
    }
  }

  /** After `n` iterations the dict lists exactly the first `n` words, in order, and its map
      has exactly those words as keys. */
  lemma {:induction false} TieBrokenPrefixFacts(costWords: Dict<string, real>, starting: Dict<char, nat>,
                                                ending: Dict<char, nat>, n: nat)
    requires costWords.Valid() && n <= |costWords.keys|
    requires EndsCounted(costWords.keys, starting, ending)
    ensures TieBrokenPrefix(costWords, starting, ending, n).keys == costWords.keys[..n]
    ensures forall w :: w in TieBrokenPrefix(costWords, starting, ending, n).vals <==> w in costWords.keys[..n]
  {
    if n > 0 {
      TieBrokenPrefixFacts(costWords, starting, ending, n - 1);
      var keys, w := costWords.keys, costWords.keys[n - 1];
      assert w !in keys[..n - 1] by {
        DistinctNotBefore(keys, n - 1);
      }
      assert keys[..n] == keys[..n - 1] + [w];
    }
  }

  /** After `n` iterations each of the first `n` words has its old score plus its bonus. */
  lemma {:induction false} TieBrokenPrefixAt(costWords: Dict<string, real>, starting: Dict<char, nat>,
                                             ending: Dict<char, nat>, n: nat, i: nat)
    requires costWords.Valid() && i < n <= |costWords.keys|
    requires EndsCounted(costWords.keys, starting, ending)
    ensures costWords.keys[i] in TieBrokenPrefix(costWords, starting, ending, n).vals
    ensures TieBrokenPrefix(costWords, starting, ending, n).vals[costWords.keys[i]]
         == costWords.vals[costWords.keys[i]] + Bonus(costWords.keys[i], starting, ending)
  {
    if i < n - 1 {
      TieBrokenPrefixAt(costWords, starting, ending, n - 1, i);
      assert costWords.keys[i] != costWords.keys[n - 1];
    }
  }

  /** Breaking ties keeps the words and their order, and adds its bonus to every score. */
  lemma TieBrokenScores(costWords: Dict<string, real>, starting: Dict<char, nat>, ending: Dict<char, nat>)
    requires costWords.Valid()
    requires EndsCounted(costWords.keys, starting, ending)
    ensures TieBroken(costWords, starting, ending).Valid()
    ensures TieBroken(costWords, starting, ending).keys == costWords.keys
    ensures forall w :: w in TieBroken(costWords, starting, ending).vals <==> w in costWords.vals
    ensures forall w :: w in costWords.vals ==>
      TieBroken(costWords, starting, ending).vals[w] == costWords.vals[w] + Bonus(w, starting, ending)
  {
    var r := TieBroken(costWords, starting, ending);
    assert r.keys == costWords.keys && forall w :: w in r.vals <==> w in costWords.keys by {
      TieBrokenPrefixFacts(costWords, starting, ending, |costWords.keys|);
      assert costWords.keys[..|costWords.keys|] == costWords.keys;
    }
    forall w | w in costWords.vals
      ensures TieBroken(costWords, starting, ending).vals[w] == costWords.vals[w] + Bonus(w, starting, ending)
    {
      TieBrokenAt(costWords, starting, ending, w);
    }
  }

  /** Breaking ties gives one word its old score plus its bonus. */
  lemma TieBrokenAt(costWords: Dict<string, real>, starting: Dict<char, nat>, ending: Dict<char, nat>, w: string)
    requires costWords.Valid() && w in costWords.vals
    requires EndsCounted(costWords.keys, starting, ending)
    ensures |w| > 0 && w[0] in starting.vals && w[|w| - 1] in ending.vals
    ensures w in TieBroken(costWords, starting, ending).vals
    ensures TieBroken(costWords, starting, ending).vals[w] == costWords.vals[w] + Bonus(w, starting, ending)
  {
    var i :| 0 <= i < |costWords.keys| && costWords.keys[i] == w;
    TieBrokenPrefixAt(costWords, starting, ending, |costWords.keys|, i);
  }

  /** Breaking ties on a dict that holds the letter costs of a pool of words gives each word
      of the pool its letter cost plus its bonus. */
  lemma TieBrokenCosts(costWords: Dict<string, real>, starting: Dict<char, nat>, ending: Dict<char, nat>,
                       cost: map<char, real>, pool: seq<string>)
    requires costWords.Valid()
    requires EndsCounted(costWords.keys, starting, ending)
    requires Covers(cost, pool)
    requires forall w :: w in pool ==> w in costWords.vals && costWords.vals[w] == WordCost(cost, w)
    ensures TieBroken(costWords, starting, ending).Valid()
    ensures TieBroken(costWords, starting, ending).keys == costWords.keys
    ensures forall w :: w in pool ==>
      && w in TieBroken(costWords, starting, ending).vals
      && TieBroken(costWords, starting, ending).vals[w] == WordCost(cost, w) + Bonus(w, starting, ending)
  {
    TieBrokenScores(costWords, starting, ending);
  }

  /** When every first letter is counted at least once (as it is for counts taken over the
      word list itself), breaking ties strictly raises every score. */
  lemma TieBrokenRaises(costWords: Dict<string, real>, starting: Dict<char, nat>, ending: Dict<char, nat>)
    requires costWords.Valid()
    requires EndsCounted(costWords.keys, starting, ending)
    requires forall c :: c in starting.vals ==> starting.vals[c] >= 1
    ensures forall w :: w in costWords.vals ==>
      w in TieBroken(costWords, starting, ending).vals &&
      TieBroken(costWords, starting, ending).vals[w] > costWords.vals[w]
  {
    TieBrokenScores(costWords, starting, ending);
    forall w | w in costWords.vals
      ensures TieBroken(costWords, starting, ending).vals[w] > costWords.vals[w]
    {
      var i :| 0 <= i < |costWords.keys| && costWords.keys[i] == w;
      assert Bonus(w, starting, ending) > 0.0;
    }
  }
}
