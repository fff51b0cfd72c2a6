/** The greedy selector: `process_next_choice` (drop every candidate sharing a letter with the
    words chosen so far, rescore, take the best) and the three picks of `main`. */
module Selector {
  import opened Wrappers
  import opened Seqs
  import opened Dicts
  import opened LetterStats
  import opened Uniqueness
  import opened Scoring
  import opened Sorting

  /** `w` contains none of the letters in `letters`. */
  predicate NoCommonLetter(letters: string, w: string) {
    forall c :: c in letters ==> c !in w
  }

  /** The survival test of `process_next_choice`, as a filter predicate. */
  function Fresh(letters: string): string -> bool {
    w => NoCommonLetter(letters, w)
  }

  /** The candidates that remain once every word containing one of `letters` is eliminated. */
  function Survivors(letters: string, pool: seq<string>): (r: seq<string>)
    ensures forall w :: w in r ==> w in pool && NoCommonLetter(letters, w)
  {
    FilterMembers(pool, Fresh(letters));
    Filter(pool, Fresh(letters))
  }

  /** The survivors keep their order, and are exactly the candidates without a chosen letter,
      each as often as it occurs in the pool. */
  lemma SurvivorsFacts(chosen: seq<string>, pool: seq<string>)
    ensures Subseq(Survivors(Flatten(chosen), pool), pool)
    ensures forall w :: w in Survivors(Flatten(chosen), pool) <==>
      w in pool && forall u :: u in chosen ==> NoCommonLetter(u, w)
    ensures forall w :: w in pool && (forall u :: u in chosen ==> NoCommonLetter(u, w)) ==>
      multiset(Survivors(Flatten(chosen), pool))[w] == multiset(pool)[w]
  {
    var letters := Flatten(chosen);
    var r := Survivors(letters, pool);
    FilterSubseq(pool, Fresh(letters));
    FilterMembers(pool, Fresh(letters));
    forall w
      ensures w in r <==> w in pool && forall u :: u in chosen ==> NoCommonLetter(u, w)
      ensures w in pool && (forall u :: u in chosen ==> NoCommonLetter(u, w)) ==> multiset(r)[w] == multiset(pool)[w]
    {
      NoCommonLetterFlatten(chosen, w);
      if w in pool && NoCommonLetter(letters, w) {
        assert multiset(r)[w] == multiset(pool)[w] > 0;
      }
    }
  }

  /** A word avoids the letters of all chosen words exactly when it avoids those of each. */
  lemma NoCommonLetterFlatten(chosen: seq<string>, w: string)
    ensures NoCommonLetter(Flatten(chosen), w) <==> forall u :: u in chosen ==> NoCommonLetter(u, w)
  {
    FlattenMembers(chosen);
    if forall u :: u in chosen ==> NoCommonLetter(u, w) {
      forall c | c in Flatten(chosen) ensures c !in w {
        var u :| u in chosen && c in u;
      }
    }
  }

  /** `sort_dict(cost_of_words(cost, words))`: the words ranked by their letter cost. */
  function Ranking(cost: Dict<char, real>, words: seq<string>): (r: Dict<string, real>)
    requires Covers(cost.vals, words)
    ensures r.Valid()
    ensures forall w :: w in r.keys <==> w in words
    ensures forall w :: w in words ==> r.vals[w] == WordCost(cost.vals, w)
  {
    WordCostsFacts(cost, words);
    SortDictFacts(WordCosts(cost, words));
    SortDict(WordCosts(cost, words))
  }

  /** The ranking lists the words by descending cost, and words of equal cost keep their
      first-occurrence order. */
  lemma RankingFacts(cost: Dict<char, real>, words: seq<string>)
    requires Covers(cost.vals, words)
    ensures SortedDesc(Ranking(cost, words).keys, Ranking(cost, words).vals)
    ensures forall x, y :: x in words && y in words && WordCost(cost.vals, x) == WordCost(cost.vals, y) ==>
      (Before(Ranking(cost, words).keys, x, y) <==> Before(Dedup(words), x, y))
  {
    WordCostsFacts(cost, words);
    SortDictFacts(WordCosts(cost, words));
    DedupMembers(words);
  }

  /** The head of the ranking is a word of maximal letter cost, and the earliest such word. */
  lemma RankingHead(cost: Dict<char, real>, words: seq<string>)
    requires Covers(cost.vals, words)
    ensures Ranking(cost, words).keys == [] <==> words == []
    ensures Ranking(cost, words).keys != [] ==>
      var h := Ranking(cost, words).keys[0];
      && h in words
      && (forall i :: 0 <= i < |words| ==> WordCost(cost.vals, words[i]) <= WordCost(cost.vals, h))
      && (forall i :: 0 <= i < |words| && WordCost(cost.vals, words[i]) == WordCost(cost.vals, h) ==>
            words[i] == h || h in words[..i])
  {
    WordCostsFacts(cost, words);
    var d := WordCosts(cost, words);
    DedupMembers(words);
    assert multiset(Ranking(cost, words).keys) == multiset(d.keys);
    if words != [] {
      assert words[0] in d.keys;
      SortDedupHead(words, d.vals);
    }
  }

  /** What `process_next_choice` returns: the best survivor, or nothing when none is left
      (where the source fails with an IndexError). */
  function NextChoice(chosen: seq<string>, pool: seq<string>, cost: Dict<char, real>): Option<string>
    requires Covers(cost.vals, pool)
  {
    var ranked := Ranking(cost, Survivors(Flatten(chosen), pool));
    if ranked.keys == [] then None else Some(ranked.keys[0])
  }

  /** The next choice is taken from the pool. */
  lemma NextChoiceInPool(chosen: seq<string>, pool: seq<string>, cost: Dict<char, real>)
    requires Covers(cost.vals, pool)
    ensures NextChoice(chosen, pool, cost).Some? ==> NextChoice(chosen, pool, cost).value in pool
  {
    var surv := Survivors(Flatten(chosen), pool);
    FilterMembers(pool, Fresh(Flatten(chosen)));
    assert multiset(Ranking(cost, surv).keys) == multiset(WordCosts(cost, surv).keys);
    if NextChoice(chosen, pool, cost).Some? {
      assert Ranking(cost, surv).keys[0] in Ranking(cost, surv).keys;
    }
  }

  /** There is a next choice exactly when some candidate survives; it is a survivor of
      maximal letter cost, and of the survivors of that cost the earliest in the pool. */
  lemma NextChoiceBest(chosen: seq<string>, pool: seq<string>, cost: Dict<char, real>)
    requires Covers(cost.vals, pool)
    ensures NextChoice(chosen, pool, cost).None? <==> Survivors(Flatten(chosen), pool) == []
    ensures NextChoice(chosen, pool, cost).Some? ==>
      var w := NextChoice(chosen, pool, cost).value;
      && w in pool
      && (forall u :: u in chosen ==> NoCommonLetter(u, w))
      && (forall i :: 0 <= i < |pool| && NoCommonLetter(Flatten(chosen), pool[i]) ==>
            WordCost(cost.vals, pool[i]) <= WordCost(cost.vals, w))
      && (forall i :: 0 <= i < |pool| && NoCommonLetter(Flatten(chosen), pool[i])
                      && WordCost(cost.vals, pool[i]) == WordCost(cost.vals, w) ==>
            pool[i] == w || w in pool[..i])
  {
    var letters := Flatten(chosen);
    var surv := Survivors(letters, pool);
    FilterMembers(pool, Fresh(letters));
    RankingHead(cost, surv);
    SurvivorsFacts(chosen, pool);
    if NextChoice(chosen, pool, cost).Some? {
      var w := NextChoice(chosen, pool, cost).value;
      forall i | 0 <= i < |pool| && NoCommonLetter(letters, pool[i])
        ensures WordCost(cost.vals, pool[i]) <= WordCost(cost.vals, w)
        ensures WordCost(cost.vals, pool[i]) == WordCost(cost.vals, w) ==> pool[i] == w || w in pool[..i]
      {
        NextChoiceBestAt(chosen, pool, cost, i);
      }
    }
  }

  /** One surviving candidate measured against the next choice. */
  lemma NextChoiceBestAt(chosen: seq<string>, pool: seq<string>, cost: Dict<char, real>, i: nat)
    requires Covers(cost.vals, pool) && NextChoice(chosen, pool, cost).Some?
    requires i < |pool| && NoCommonLetter(Flatten(chosen), pool[i])
    ensures WordCost(cost.vals, pool[i]) <= WordCost(cost.vals, NextChoice(chosen, pool, cost).value)
    ensures WordCost(cost.vals, pool[i]) == WordCost(cost.vals, NextChoice(chosen, pool, cost).value) ==>
      pool[i] == NextChoice(chosen, pool, cost).value || NextChoice(chosen, pool, cost).value in pool[..i]
  {
    var letters := Flatten(chosen);
    var surv := Survivors(letters, pool);
    var w := NextChoice(chosen, pool, cost).value;
    RankingHead(cost, surv);
    FilterAt(pool, Fresh(letters), i);
    var k := |Filter(pool[..i], Fresh(letters))|;
    assert surv[k] == pool[i];
    if WordCost(cost.vals, pool[i]) == WordCost(cost.vals, w) && pool[i] != w {
      assert w in surv[..k];
      FilterMembers(pool[..i], Fresh(letters));
    }
  }

  /** Removing from the pool a word that shares a letter with the chosen words does not
      change the next choice: such a word could not have survived anyway. */
  lemma NextChoiceDropShared(chosen: seq<string>, pool: seq<string>, x: string, cost: Dict<char, real>)
    requires Covers(cost.vals, pool)
    requires !NoCommonLetter(Flatten(chosen), x)
    ensures NextChoice(chosen, RemoveFirst(pool, x), cost) == NextChoice(chosen, pool, cost)
  {
    RemoveRejected(pool, x, Fresh(Flatten(chosen)));
  }

  /** The inner loop of the elimination: for each chosen letter found in `word`, one copy
      of `word` still among the options is removed. The options keep every survivor and
      every other word; a word with a chosen letter loses at least one copy, or all. */
  method DropSharing(letters: string, word: string, options: seq<string>) returns (rest: seq<string>)
    ensures Filter(rest, Fresh(letters)) == Filter(options, Fresh(letters))
    ensures forall w :: w != word ==> multiset(rest)[w] == multiset(options)[w]
    ensures multiset(rest)[word] <= multiset(options)[word]
    ensures !NoCommonLetter(letters, word) ==>
      multiset(rest)[word] == 0 || multiset(rest)[word] < multiset(options)[word]
  {
    rest := options;
    var t := 0;
    while t < |letters|
      invariant 0 <= t <= |letters|
      invariant Filter(rest, Fresh(letters)) == Filter(options, Fresh(letters))
      invariant forall w :: w != word ==> multiset(rest)[w] == multiset(options)[w]
      invariant multiset(rest)[word] <= multiset(options)[word]
      invariant (exists q :: 0 <= q < t && letters[q] in word) ==>
        multiset(rest)[word] == 0 || multiset(rest)[word] < multiset(options)[word]
    {
      if letters[t] in word {
        if word in rest {
          DropOne(letters, word, rest, t);
          rest := RemoveFirst(rest, word);
        }
      }
      t := t + 1;
    }
    if !NoCommonLetter(letters, word) {
      var c :| c in letters && c in word;
      var q :| 0 <= q < |letters| && letters[q] == c;
    }
  }

  /** Removing one copy of a word that holds one of `letters` keeps the survivors and every
      other word, and leaves one copy fewer of that word. */
  lemma DropOne(letters: string, word: string, rest: seq<string>, t: nat)
    requires t < |letters| && letters[t] in word && word in rest
    ensures Filter(RemoveFirst(rest, word), Fresh(letters)) == Filter(rest, Fresh(letters))
    ensures forall w :: w != word ==> multiset(RemoveFirst(rest, word))[w] == multiset(rest)[w]
    ensures multiset(RemoveFirst(rest, word))[word] < multiset(rest)[word]
  {
    assert !Fresh(letters)(word);
    RemoveRejected(rest, word, Fresh(letters));
  }

  /** The elimination loop of `process_next_choice`: a copy of the candidates from which
      every word containing one of `letters` is removed, leaving exactly the survivors. */
  method Eliminate(letters: string, pool: seq<string>) returns (options: seq<string>)
    ensures options == Survivors(letters, pool)
  {
    options := pool;
    var j := 0;
    assert pool[j..] == pool;
    while j < |pool|
      invariant 0 <= j <= |pool|
      invariant Filter(options, Fresh(letters)) == Filter(pool, Fresh(letters))
      invariant forall w :: !NoCommonLetter(letters, w) ==> multiset(options)[w] <= multiset(pool[j..])[w]
    {
      var word := pool[j];
      var rest := DropSharing(letters, word, options);
      EliminateStep(letters, pool, j, options, rest);
      options := rest;
      j := j + 1;
    }
    EliminateDone(letters, pool, options);
  }

  /** Once every candidate is visited, the options are exactly the survivors. */
  lemma EliminateDone(letters: string, pool: seq<string>, options: seq<string>)
    requires Filter(options, Fresh(letters)) == Filter(pool, Fresh(letters))
    requires forall w :: !NoCommonLetter(letters, w) ==> multiset(options)[w] <= multiset(pool[|pool|..])[w]
    ensures options == Survivors(letters, pool)
  {
    assert multiset(pool[|pool|..]) == multiset{};
    OnlyFreshLeft(letters, options);
  }

  /** One pass of the inner loop leaves no more copies of a rejected word than the
      candidates not yet visited hold. */
  lemma EliminateStep(letters: string, pool: seq<string>, j: nat, options: seq<string>, rest: seq<string>)
    requires j < |pool|
    requires forall w :: !NoCommonLetter(letters, w) ==> multiset(options)[w] <= multiset(pool[j..])[w]
    requires forall w :: w != pool[j] ==> multiset(rest)[w] == multiset(options)[w]
    requires !NoCommonLetter(letters, pool[j]) ==>
      multiset(rest)[pool[j]] == 0 || multiset(rest)[pool[j]] < multiset(options)[pool[j]]
    ensures forall w :: !NoCommonLetter(letters, w) ==> multiset(rest)[w] <= multiset(pool[j + 1..])[w]
  {
    assert pool[j..] == [pool[j]] + pool[j + 1..];
    assert multiset(pool[j..]) == multiset{pool[j]} + multiset(pool[j + 1..]);
  }

  /** A list holding no copy of any word with one of `letters` is its own survivors. */
  lemma OnlyFreshLeft(letters: string, options: seq<string>)
    requires forall w :: !NoCommonLetter(letters, w) ==> multiset(options)[w] <= 0
    ensures Filter(options, Fresh(letters)) == options
  {
    forall w | w in options ensures Fresh(letters)(w) {
      assert multiset(options)[w] > 0;
    }
    FilterAll(options, Fresh(letters));
  }

  /** `process_next_choice`: gathers the chosen letters, eliminates every candidate
      containing one of them, then ranks the survivors and takes the first. */
  method ProcessNextChoice(chosen: seq<string>, pool: seq<string>, cost: Dict<char, real>)
      returns (next: Option<string>)
    requires Covers(cost.vals, pool)
    ensures next == NextChoice(chosen, pool, cost)
  {
    var letters: string := [];
    var i := 0;
    while i < |chosen|
      invariant 0 <= i <= |chosen|
      invariant letters == Flatten(chosen[..i])
    {
      assert chosen[..i + 1] == chosen[..i] + [chosen[i]];
      FlattenSnoc(chosen[..i], chosen[i]);
      letters := letters + chosen[i];
      i := i + 1;
    }
    assert chosen[..i] == chosen;
    var options := Eliminate(letters, pool);
    FilterMembers(pool, Fresh(letters));
    var costs := CostOfWords(cost, options);
    WordCostsFacts(cost, options);
    var ranked := SortDict(costs);
    if |ranked.keys| == 0 {
      next := None;
    } else {
      next := Some(ranked.keys[0]);
    }
  }
}
