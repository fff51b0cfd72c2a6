/** The selection body of `main`: letter costs over the whole list, the tie-broken first
    pick, and two further picks by `process_next_choice`, each removed from the pool. */
module Pipeline {
  import opened Wrappers
  import opened Seqs
  import opened Dicts
  import opened LetterStats
  import opened Uniqueness
  import opened Scoring
  import opened Sorting
  import opened Selector

  /** Why `main` stops without three words: an empty word (`word[0]` fails in
      `starting_frequency`), or no candidate left for pick number `picked + 1`
      (`list(...)[0]` fails on an empty dict). */
  datatype Error = EmptyWord | Insufficient(picked: nat)

  /** No word of the list is empty. */
  predicate NonEmptyWords(words: seq<string>) {
    forall w :: w in words ==> |w| > 0
  }

  /** The letter costs of `main`: each letter's count over the whole list, divided by 26.
      Every letter of the list has one. */
  function Costs(words: seq<string>): (r: Dict<char, real>)
    ensures r.Valid()
    ensures Covers(r.vals, words)
  {
    FrequencyFacts(words);
    LetterCosts(Tally(Flatten(words)), AlphabetSize)
  }

  /** The first and last letter of every word are counted. */
  lemma BoundaryLetters(words: seq<string>)
    requires NonEmptyWords(words)
    ensures forall w :: w in words ==> w[0] in Tally(Firsts(words)).vals && w[|w| - 1] in Tally(Lasts(words)).vals
  {
    StartingFacts(words);
    EndingFacts(words);
    forall w | w in words ensures w[0] in Tally(Firsts(words)).vals && w[|w| - 1] in Tally(Lasts(words)).vals {
      var k :| 0 <= k < |words| && words[k] == w;
    }
  }

  /** The tie-broken score of a word: its letter cost plus its first/last letter bonus. */
  function Score(words: seq<string>, u: string): real
    requires NonEmptyWords(words) && u in words
  {
    BoundaryLetters(words);
    WordCost(Costs(words).vals, u) + Bonus(u, Tally(Firsts(words)), Tally(Lasts(words)))
  }

  /** `break_ties` receives a well-formed dict whose words all have counted ends. */
  lemma BaseReady(words: seq<string>)
    requires NonEmptyWords(words)
    ensures Ranking(Costs(words), UniqueWords(words)).Valid()
    ensures EndsCounted(Ranking(Costs(words), UniqueWords(words)).keys, Tally(Firsts(words)), Tally(Lasts(words)))
  {
    BoundaryLetters(words);
  }

  /** `updated_cost` before its re-sort: the unique-letter words ranked by letter cost
      (src/screeningWords.py:206), each raised by its bonus (src/screeningWords.py:209).
      It keeps the ranked order and gives every unique-letter word its tie-broken score. */
  function Composite(words: seq<string>): (r: Dict<string, real>)
    requires NonEmptyWords(words)
    ensures r.Valid()
    ensures r.keys == Ranking(Costs(words), UniqueWords(words)).keys
    ensures forall w :: w in UniqueWords(words) ==> w in r.vals && r.vals[w] == Score(words, w)
  {
    BaseReady(words);
    CompositeScores(words);
    TieBroken(Ranking(Costs(words), UniqueWords(words)), Tally(Firsts(words)), Tally(Lasts(words)))
  }

  /** The scores `break_ties` computes are the tie-broken scores. */
  lemma CompositeScores(words: seq<string>)
    requires NonEmptyWords(words)
    ensures Ranking(Costs(words), UniqueWords(words)).Valid()
    ensures EndsCounted(Ranking(Costs(words), UniqueWords(words)).keys, Tally(Firsts(words)), Tally(Lasts(words)))
    ensures TieBroken(Ranking(Costs(words), UniqueWords(words)), Tally(Firsts(words)), Tally(Lasts(words))).Valid()
    ensures TieBroken(Ranking(Costs(words), UniqueWords(words)), Tally(Firsts(words)), Tally(Lasts(words))).keys
         == Ranking(Costs(words), UniqueWords(words)).keys
    ensures forall w :: w in UniqueWords(words) ==>
      && w in TieBroken(Ranking(Costs(words), UniqueWords(words)), Tally(Firsts(words)), Tally(Lasts(words))).vals
      && TieBroken(Ranking(Costs(words), UniqueWords(words)), Tally(Firsts(words)), Tally(Lasts(words))).vals[w]
         == Score(words, w)
  {
    var cost, u := Costs(words), UniqueWords(words);
    var st, en := Tally(Firsts(words)), Tally(Lasts(words));
    BaseReady(words);
    TieBrokenCosts(Ranking(cost, u), st, en, cost.vals, u);
  }

  /** With the first-letter counts of `main`, in which every counted letter starts at least
      one word, breaking ties strictly raises every unique-letter word's score. */
  lemma CompositeRaises(words: seq<string>)
    requires NonEmptyWords(words)
    ensures forall w :: w in UniqueWords(words) ==>
      Composite(words).vals[w] > Ranking(Costs(words), UniqueWords(words)).vals[w]
  {
    BaseReady(words);
    TallyValid(Firsts(words));
    TieBrokenRaises(Ranking(Costs(words), UniqueWords(words)), Tally(Firsts(words)), Tally(Lasts(words)));
  }

  /** The first pick of `main` (src/screeningWords.py:213), or nothing when no word has unique letters. */
  function FirstChoice(words: seq<string>): Option<string>
    requires NonEmptyWords(words)
  {
    Top(Composite(words))
  }

  /** The first pick is a unique-letter word of the list. */
  lemma FirstChoiceInPool(words: seq<string>)
    requires NonEmptyWords(words)
    ensures FirstChoice(words).Some? ==> FirstChoice(words).value in UniqueWords(words)
  {
    TopBest(Composite(words));
  }

  /** One word of the list measured against the first pick. */
  lemma FirstChoiceAt(words: seq<string>, i: nat)
    requires NonEmptyWords(words) && FirstChoice(words).Some?
    requires i < |words| && IsUniqueChars(words[i])
    ensures FirstChoice(words).value in words
    ensures Score(words, words[i]) <= Score(words, FirstChoice(words).value)
    ensures Score(words, words[i]) == Score(words, FirstChoice(words).value) ==>
      WordCost(Costs(words).vals, words[i]) <= WordCost(Costs(words).vals, FirstChoice(words).value)
    ensures Score(words, words[i]) == Score(words, FirstChoice(words).value) &&
            WordCost(Costs(words).vals, words[i]) == WordCost(Costs(words).vals, FirstChoice(words).value) ==>
      words[i] == FirstChoice(words).value || FirstChoice(words).value in words[..i]
  {
    var cost, u := Costs(words), UniqueWords(words);
    var keys := Ranking(cost, u).keys;
    var h, x := FirstChoice(words).value, words[i];
    var c := Composite(words);
    FilterAt(words, IsUniqueChars, i);
    var k := |Filter(words[..i], IsUniqueChars)|;
    assert u[k] == x;
    assert x in keys;
    var j :| 0 <= j < |keys| && keys[j] == x;
    TopAt(c, j);
    assert h in u;
    if Score(words, x) == Score(words, h) && x != h {
      PrefixBefore(keys, h, j);
      RankingFacts(cost, u);
      if WordCost(cost.vals, x) == WordCost(cost.vals, h) {
        BeforeInDedup(u, h, x, k);
        FilterMembers(words[..i], IsUniqueChars);
      }
    }
  }

  /** The first pick is a unique-letter word of maximal tie-broken score; among the words of
      that score it has the highest letter cost; among those it is the earliest in the list.
      There is no first pick exactly when no word has unique letters. */
  lemma FirstChoiceBest(words: seq<string>)
    requires NonEmptyWords(words)
    ensures FirstChoice(words).None? <==> forall w :: w in words ==> !IsUniqueChars(w)
    ensures FirstChoice(words).Some? ==>
      var h := FirstChoice(words).value;
      && h in words && IsUniqueChars(h)
      && (forall i :: 0 <= i < |words| && IsUniqueChars(words[i]) ==> Score(words, words[i]) <= Score(words, h))
      && (forall i :: 0 <= i < |words| && IsUniqueChars(words[i]) && Score(words, words[i]) == Score(words, h) ==>
            WordCost(Costs(words).vals, words[i]) <= WordCost(Costs(words).vals, h))
      && (forall i :: 0 <= i < |words| && IsUniqueChars(words[i]) && Score(words, words[i]) == Score(words, h)
                      && WordCost(Costs(words).vals, words[i]) == WordCost(Costs(words).vals, h) ==>
            words[i] == h || h in words[..i])
  {
    TopBest(Composite(words));
    FilterMembers(words, IsUniqueChars);
    if FirstChoice(words).Some? {
      forall i | 0 <= i < |words| && IsUniqueChars(words[i])
        ensures Score(words, words[i]) <= Score(words, FirstChoice(words).value)
        ensures Score(words, words[i]) == Score(words, FirstChoice(words).value) ==>
          WordCost(Costs(words).vals, words[i]) <= WordCost(Costs(words).vals, FirstChoice(words).value)
        ensures Score(words, words[i]) == Score(words, FirstChoice(words).value) &&
                WordCost(Costs(words).vals, words[i]) == WordCost(Costs(words).vals, FirstChoice(words).value) ==>
          words[i] == FirstChoice(words).value || FirstChoice(words).value in words[..i]
      {
        FirstChoiceAt(words, i);
      }
    }
  }

  /** Pick three of `main` (src/screeningWords.py:223-225), after `first` and `second`: `second` is removed
      from the pool, then the best word sharing no letter with either is taken. */
  function ThirdPick(first: string, second: string, pool: seq<string>, cost: Dict<char, real>)
      : Result<seq<string>, Error>
    requires Covers(cost.vals, pool)
  {
    match NextChoice([first, second], RemoveFirst(pool, second), cost)
    case None => Failure(Insufficient(2))
    case Some(third) => Success([first, second, third])
  }

  /** Picks two and three of `main` (src/screeningWords.py:217-225), after `first`: each pick is removed
      from the pool before the next one is chosen. */
  function LaterPicks(first: string, unique: seq<string>, cost: Dict<char, real>): Result<seq<string>, Error>
    requires Covers(cost.vals, unique)
  {
    var pool := RemoveFirst(unique, first);
    match NextChoice([first], pool, cost)
    case None => Failure(Insufficient(1))
    case Some(second) => ThirdPick(first, second, pool, cost)
  }

  /** The three picks of `main` (src/screeningWords.py:201-225), or the reason there are fewer. */
  function Selection(words: seq<string>): Result<seq<string>, Error> {
    if !NonEmptyWords(words) then Failure(EmptyWord)
    else
      match FirstChoice(words)
      case None => Failure(Insufficient(0))
      case Some(first) => LaterPicks(first, UniqueWords(words), Costs(words))
  }

  /** One word of the list measured against a later choice made over the unique-letter words. */
  lemma NextChoiceAt(chosen: seq<string>, words: seq<string>, cost: Dict<char, real>, i: nat)
    requires Covers(cost.vals, words) && NextChoice(chosen, UniqueWords(words), cost).Some?
    requires i < |words| && IsUniqueChars(words[i]) && NoCommonLetter(Flatten(chosen), words[i])
    ensures WordCost(cost.vals, words[i]) <= WordCost(cost.vals, NextChoice(chosen, UniqueWords(words), cost).value)
    ensures WordCost(cost.vals, words[i]) == WordCost(cost.vals, NextChoice(chosen, UniqueWords(words), cost).value) ==>
      words[i] == NextChoice(chosen, UniqueWords(words), cost).value
      || NextChoice(chosen, UniqueWords(words), cost).value in words[..i]
  {
    var u := UniqueWords(words);
    FilterAt(words, IsUniqueChars, i);
    var k := |Filter(words[..i], IsUniqueChars)|;
    assert u[k] == words[i];
    NextChoiceBestAt(chosen, u, cost, k);
    FilterMembers(words[..i], IsUniqueChars);
  }

  /** A later pick, made over the unique-letter words, measured against the whole list: there
      is none exactly when every unique-letter word shares a letter with a chosen word;
      otherwise it is a unique-letter word sharing no letter with any chosen word, of maximal
      letter cost among those, and the earliest of them in the list when costs tie. */
  lemma NextChoiceFromList(chosen: seq<string>, words: seq<string>, cost: Dict<char, real>)
    requires Covers(cost.vals, words)
    ensures NextChoice(chosen, UniqueWords(words), cost).None? <==>
      forall i :: 0 <= i < |words| && IsUniqueChars(words[i]) ==> !NoCommonLetter(Flatten(chosen), words[i])
    ensures NextChoice(chosen, UniqueWords(words), cost).Some? ==>
      var w := NextChoice(chosen, UniqueWords(words), cost).value;
      && w in words && IsUniqueChars(w)
      && (forall u :: u in chosen ==> NoCommonLetter(u, w))
      && (forall i :: 0 <= i < |words| && IsUniqueChars(words[i]) && NoCommonLetter(Flatten(chosen), words[i]) ==>
            WordCost(cost.vals, words[i]) <= WordCost(cost.vals, w))
      && (forall i :: 0 <= i < |words| && IsUniqueChars(words[i]) && NoCommonLetter(Flatten(chosen), words[i])
                      && WordCost(cost.vals, words[i]) == WordCost(cost.vals, w) ==>
            words[i] == w || w in words[..i])
  {
    var u := UniqueWords(words);
    var letters := Flatten(chosen);
    NextChoiceBest(chosen, u, cost);
    FilterMembers(words, IsUniqueChars);
    FilterMembers(u, Fresh(letters));
    if NextChoice(chosen, u, cost).None? {
      forall i | 0 <= i < |words| && IsUniqueChars(words[i]) ensures !NoCommonLetter(letters, words[i]) {
        assert words[i] in words;
      }
    } else {
      var w := NextChoice(chosen, u, cost).value;
      forall i | 0 <= i < |words| && IsUniqueChars(words[i]) && NoCommonLetter(letters, words[i])
        ensures WordCost(cost.vals, words[i]) <= WordCost(cost.vals, w)
        ensures WordCost(cost.vals, words[i]) == WordCost(cost.vals, w) ==> words[i] == w || w in words[..i]
      {
        NextChoiceAt(chosen, words, cost, i);
      }
    }
  }

  /** The second pick of `main`, stated over the whole unique-letter pool. */
  function SecondChoice(words: seq<string>): Option<string>
    requires NonEmptyWords(words) && FirstChoice(words).Some?
  {
    NextChoice([FirstChoice(words).value], UniqueWords(words), Costs(words))
  }

  /** The third pick of `main`, stated over the whole unique-letter pool. */
  function ThirdChoice(words: seq<string>): Option<string>
    requires NonEmptyWords(words) && FirstChoice(words).Some? && SecondChoice(words).Some?
  {
    NextChoice([FirstChoice(words).value, SecondChoice(words).value], UniqueWords(words), Costs(words))
  }

  /** A non-empty word shares a letter with any list of chosen words it belongs to. */
  lemma SharesWithItself(chosen: seq<string>, x: string)
    requires x in chosen && |x| > 0
    ensures !NoCommonLetter(Flatten(chosen), x)
  {
    FlattenMembers(chosen);
    assert x[0] in x;
  }

  /** The removals at src/screeningWords.py:218 and :223 change nothing: every pick is the
      one made over the whole unique-letter pool, since an earlier pick shares its own letters and could not
      survive again. */
  lemma SelectionChoices(words: seq<string>)
    ensures !NonEmptyWords(words) ==> Selection(words) == Failure(EmptyWord)
    ensures NonEmptyWords(words) && FirstChoice(words).None? ==> Selection(words) == Failure(Insufficient(0))
    ensures NonEmptyWords(words) && FirstChoice(words).Some? && SecondChoice(words).None? ==>
      Selection(words) == Failure(Insufficient(1))
    ensures NonEmptyWords(words) && FirstChoice(words).Some? && SecondChoice(words).Some? &&
            ThirdChoice(words).None? ==>
      Selection(words) == Failure(Insufficient(2))
    ensures NonEmptyWords(words) && FirstChoice(words).Some? && SecondChoice(words).Some? &&
            ThirdChoice(words).Some? ==>
      Selection(words) == Success([FirstChoice(words).value, SecondChoice(words).value, ThirdChoice(words).value])
  {
    if NonEmptyWords(words) && FirstChoice(words).Some? {
      var u, cost := UniqueWords(words), Costs(words);
      var f := FirstChoice(words).value;
      FirstChoiceInPool(words);
      SharesWithItself([f], f);
      var pool := RemoveFirst(u, f);
      NextChoiceDropShared([f], u, f, cost);
      if SecondChoice(words).Some? {
        var s := SecondChoice(words).value;
        NextChoiceInPool([f], pool, cost);
        SharesWithItself([f, s], f);
        SharesWithItself([f, s], s);
        NextChoiceDropShared([f, s], pool, s, cost);
        NextChoiceDropShared([f, s], u, f, cost);
      }
    }
  }

  /** Flattening one or two chosen words gives their letters. */
  lemma FlattenChosen(f: string, s: string)
    ensures Flatten([f]) == f
    ensures Flatten([f, s]) == f + s
  {
    FlattenSnoc([], f);
    FlattenSnoc([f], s);
    assert [f] + [s] == [f, s];
  }

  /** Why the selection fails, each reason exactly: an empty word in the list; no word
      with unique letters; no unique-letter word disjoint from the first pick. */
  lemma SelectionErrors(words: seq<string>)
    ensures Selection(words) == Failure(EmptyWord) <==> "" in words
    ensures Selection(words) == Failure(Insufficient(0)) <==>
      NonEmptyWords(words) && forall w :: w in words ==> !IsUniqueChars(w)
    ensures Selection(words) == Failure(Insufficient(1)) <==>
      && NonEmptyWords(words) && FirstChoice(words).Some?
      && forall w :: w in words && IsUniqueChars(w) ==> !NoCommonLetter(FirstChoice(words).value, w)
  {
    SelectionChoices(words);
    if NonEmptyWords(words) {
      FirstChoiceBest(words);
      if FirstChoice(words).Some? {
        var f := FirstChoice(words).value;
        FlattenChosen(f, f);
        Blocked([f], words);
      }
    } else {
      var w :| w in words && |w| == 0;
      assert w == "";
    }
  }

  /** The last reason: no unique-letter word is disjoint from both the first and the
      second pick. */
  lemma SelectionErrorThird(words: seq<string>)
    ensures Selection(words) == Failure(Insufficient(2)) <==>
      && NonEmptyWords(words) && FirstChoice(words).Some? && SecondChoice(words).Some?
      && forall w :: w in words && IsUniqueChars(w) ==>
           !(NoCommonLetter(FirstChoice(words).value, w) && NoCommonLetter(SecondChoice(words).value, w))
  {
    SelectionChoices(words);
    if NonEmptyWords(words) && FirstChoice(words).Some? && SecondChoice(words).Some? {
      BlockedPair(FirstChoice(words).value, SecondChoice(words).value, words);
    }
  }

  /** No later pick after two chosen words exactly when every unique-letter word of the list
      shares a letter with one of them. */
  lemma BlockedPair(f: string, s: string, words: seq<string>)
    requires NonEmptyWords(words)
    ensures NextChoice([f, s], UniqueWords(words), Costs(words)).None? <==>
      forall w :: w in words && IsUniqueChars(w) ==> !(NoCommonLetter(f, w) && NoCommonLetter(s, w))
  {
    FlattenChosen(f, s);
    Blocked([f, s], words);
    forall w ensures NoCommonLetter(f + s, w) <==> NoCommonLetter(f, w) && NoCommonLetter(s, w) {
      NoCommonLetterConcat(f, s, w);
    }
  }

  /** A word avoids the letters of two words together exactly when it avoids each. */
  lemma NoCommonLetterConcat(a: string, b: string, w: string)
    ensures NoCommonLetter(a + b, w) <==> NoCommonLetter(a, w) && NoCommonLetter(b, w)
  {
    if NoCommonLetter(a, w) && NoCommonLetter(b, w) {
      forall c | c in a + b ensures c !in w {
        assert c in a || c in b;
      }
    }
  }

  /** The index form of "no later pick over the unique-letter words" as a statement about
      the words of the list. */
  lemma Blocked(chosen: seq<string>, words: seq<string>)
    requires NonEmptyWords(words)
    ensures NextChoice(chosen, UniqueWords(words), Costs(words)).None? <==>
      forall w :: w in words && IsUniqueChars(w) ==> !NoCommonLetter(Flatten(chosen), w)
  {
    NextChoiceFromList(chosen, words, Costs(words));
    if NextChoice(chosen, UniqueWords(words), Costs(words)).None? {
      forall w | w in words && IsUniqueChars(w) ensures !NoCommonLetter(Flatten(chosen), w) {
        var i :| 0 <= i < |words| && words[i] == w;
      }
    }
  }

  /** Three successful picks are unique-letter, non-empty words of the list, pairwise
      without a common letter, and they are the first, second and third choices. */
  lemma SelectionPicks(words: seq<string>)
    ensures Selection(words).Success? ==>
      && NonEmptyWords(words) && FirstChoice(words).Some? && SecondChoice(words).Some? && ThirdChoice(words).Some?
      && Selection(words).value == [FirstChoice(words).value, SecondChoice(words).value, ThirdChoice(words).value]
    ensures Selection(words).Success? ==>
      var p := Selection(words).value;
      && |p| == 3
      && p[0] in words && p[1] in words && p[2] in words
      && Distinct(p[0]) && Distinct(p[1]) && Distinct(p[2])
      && |p[0]| > 0 && |p[1]| > 0 && |p[2]| > 0
      && NoCommonLetter(p[0], p[1]) && NoCommonLetter(p[0], p[2]) && NoCommonLetter(p[1], p[2])
  {
    SelectionChoices(words);
    if Selection(words).Success? {
      FirstChoiceBest(words);
      var f := FirstChoice(words).value;
      NextChoiceFromList([f], words, Costs(words));
      var s := SecondChoice(words).value;
      NextChoiceFromList([f, s], words, Costs(words));
      var t := ThirdChoice(words).value;
      IsUniqueCharsIff(f);
      IsUniqueCharsIff(s);
      IsUniqueCharsIff(t);
    }
  }

  /** With no three non-empty unique-letter words that pairwise share no letter, the
      selection fails. */
  lemma NoDisjointTripleFails(words: seq<string>)
    requires forall a, b, c ::
      (a in words && b in words && c in words && |a| > 0 && |b| > 0 && |c| > 0 &&
       Distinct(a) && Distinct(b) && Distinct(c)) ==>
      !(NoCommonLetter(a, b) && NoCommonLetter(a, c) && NoCommonLetter(b, c))
    ensures Selection(words).Failure?
  {
    SelectionPicks(words);
  }

  /** The first pick (src/screeningWords.py:201-213): the statistics and the tie-broken first pick. It also hands
      back the letter costs and the unique-letter pool the later picks work on. */
  method FirstPick(words: seq<string>) returns (first: Result<string, Error>, cost: Dict<char, real>,
                                                uniqueWords: seq<string>)
    ensures cost == Costs(words) && uniqueWords == UniqueWords(words)
    ensures !NonEmptyWords(words) ==> first == Failure(EmptyWord)
    ensures NonEmptyWords(words) && FirstChoice(words).None? ==> first == Failure(Insufficient(0))
    ensures NonEmptyWords(words) && FirstChoice(words).Some? ==> first == Success(FirstChoice(words).value)
  {
    var count := FrequencyOfLetters(words);
    FrequencyFacts(words);
    cost := CostOfLetters(count, AlphabetSize);
    assert cost == Costs(words);
    uniqueWords := WordsWithUniqueLetters(words);
    var costWords := CostOfWords(cost, uniqueWords);
    WordCostsFacts(cost, uniqueWords);
    costWords := SortDict(costWords);
    assert costWords == Ranking(cost, uniqueWords);
    if "" in words {
      // `starting_frequency` reads `word[0]` of the empty word
      first := Failure(EmptyWord);
      return;
    }
    var starting := StartingFrequency(words);
    var ending := EndingFrequency(words);
    BaseReady(words);
    var updated := BreakTies(costWords, starting, ending);
    assert updated == Composite(words);
    updated := SortDict(updated);
    if |updated.keys| == 0 {
      first := Failure(Insufficient(0));
    } else {
      first := Success(updated.keys[0]);
    }
  }

  /** The third pick (src/screeningWords.py:222-225). */
  method PickThird(first: string, second: string, pool: seq<string>, cost: Dict<char, real>)
      returns (result: Result<seq<string>, Error>)
    requires Covers(cost.vals, pool)
    ensures result == ThirdPick(first, second, pool, cost)
  {
    var finalWords := [first, second];
    var uniqueWords := RemoveFirst(pool, second);
    var last := ProcessNextChoice(finalWords, uniqueWords, cost);
    if last.None? {
      result := Failure(Insufficient(2));
      return;
    }
    finalWords := finalWords + [last.value];
    assert finalWords == [first, second, last.value];
    result := Success(finalWords);
  }

  /** The second and third picks (src/screeningWords.py:214-225): two picks by `process_next_choice`, each earlier pick
      removed from the candidate pool first. */
  method PickTwoMore(first: string, unique: seq<string>, cost: Dict<char, real>)
      returns (result: Result<seq<string>, Error>)
    requires Covers(cost.vals, unique)
    ensures result == LaterPicks(first, unique, cost)
  {
    var finalWords := [first];
    var uniqueWords := RemoveFirst(unique, first);
    var next := ProcessNextChoice(finalWords, uniqueWords, cost);
    if next.None? {
      result := Failure(Insufficient(1));
      return;
    }
    result := PickThird(first, next.value, uniqueWords, cost);
  }

  /** `main`'s selection body: the tie-broken first pick, then the two further picks. */
  method SelectTopThree(words: seq<string>) returns (result: Result<seq<string>, Error>)
    ensures result == Selection(words)
  {
    var firstPick, cost, uniqueWords := FirstPick(words);
    if firstPick.Failure? {
      result := Failure(firstPick.error);
      return;
    }
    result := PickTwoMore(firstPick.value, uniqueWords, cost);
  }
}
