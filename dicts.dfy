/** Python dictionaries as values: the keys in insertion order beside the key-to-value map,
    and the counting dictionary that `frequency_of_letters`, `starting_frequency`,
    `ending_frequency` and `Counter` build. */
module Dicts {
  import opened Seqs

  /** A dict: its keys in insertion (iteration) order and the map from key to value. */
  datatype Dict<K, V> = Dict(keys: seq<K>, vals: map<K, V>) {

    /** Every key is listed once, and the listed keys are exactly the keys of the map. */
    predicate Valid() {
      && Distinct(keys)
      && (forall k :: k in keys ==> k in vals)
      && (forall k :: k in vals ==> k in keys)
    }
  }

  /** `d[k] = v`: a new key is appended to the order, an existing key keeps its place. */
  function Put<K, V>(d: Dict<K, V>, k: K, v: V): Dict<K, V> {
    if k in d.vals then Dict(d.keys, d.vals[k := v]) else Dict(d.keys + [k], d.vals[k := v])
  }

  /** `d[k] = v` keeps a dict well formed. */
  lemma PutValid<K, V>(d: Dict<K, V>, k: K, v: V)
    requires d.Valid()
    ensures Put(d, k, v).Valid()
  {
    if k !in d.vals {
      assert k !in d.keys;
      DistinctSnoc(d.keys, k);
    }
  }

  /** One step of a counting loop: `if x not in d: d[x] = 1 else: d[x] += 1`. */
  function Bump<K>(d: Dict<K, nat>, x: K): Dict<K, nat> {
    if x !in d.vals then Put(d, x, 1) else Put(d, x, d.vals[x] + 1)
  }

  /** The counting dict of the letters `s`: its distinct elements in order of first occurrence,
      each mapped to the number of times it occurs in `s`. */
  function Tally(s: seq<char>): Dict<char, nat> {
    Dict(Dedup(s), map x | x in s :: multiset(s)[x])
  }

  /** Counting one element more is one `Bump` of the counting dict: this is what lets a
      loop of `Bump`s compute `Tally`. */
  lemma TallySnoc(s: seq<char>, x: char)
    ensures Tally(s + [x]) == Bump(Tally(s), x)
  {
    var t := s + [x];
    assert t[..|t| - 1] == s;
    assert multiset(t) == multiset(s) + multiset{x};
    DedupMembers(s);
    var d, m := Tally(s), Tally(t).vals;
    var m' := if x in s then d.vals[x := d.vals[x] + 1] else d.vals[x := 1];
    assert Dedup(t) == if x in s then Dedup(s) else Dedup(s) + [x];
    assert m.Keys == m'.Keys by {
      forall y ensures y in m <==> y in m' {
        assert y in t <==> y in s || y == x;
      }
    }
    forall y | y in m ensures m[y] == m'[y] {
    }
    assert m == m';
  }

  /** A counting dict is a well-formed dict whose every count is positive. */
  lemma TallyValid(s: seq<char>)
    ensures Tally(s).Valid()
    ensures forall x :: x in Tally(s).vals ==> Tally(s).vals[x] >= 1
  {
    DedupMembers(s);
  }

  /** The sum of the values of `m` over the keys listed in `keys`. */
  function SumOver<K>(keys: seq<K>, m: map<K, nat>): nat
    requires forall k :: k in keys ==> k in m
  {
    if keys == [] then 0 else SumOver(keys[..|keys| - 1], m) + m[keys[|keys| - 1]]
  }

  /** The sum of the real values of `m` over the keys listed in `keys`. */
  function SumOverReal<K>(keys: seq<K>, m: map<K, real>): real
    requires forall k :: k in keys ==> k in m
  {
    if keys == [] then 0.0 else SumOverReal(keys[..|keys| - 1], m) + m[keys[|keys| - 1]]
  }

  /** The sum only depends on the values at the listed keys. */
  lemma {:induction false} SumOverFrame<K>(keys: seq<K>, m: map<K, nat>, m': map<K, nat>)
    requires forall k :: k in keys ==> k in m && k in m' && m[k] == m'[k]
    ensures SumOver(keys, m) == SumOver(keys, m')
  {
    if keys != [] {
      SumOverFrame(keys[..|keys| - 1], m, m');
    }
  }

  /** Raising the value of one listed key by one raises the sum by one. */
  lemma {:induction false} SumOverBump<K>(keys: seq<K>, m: map<K, nat>, x: K)
    requires Distinct(keys) && x in keys
    requires forall k :: k in keys ==> k in m
    ensures SumOver(keys, m[x := m[x] + 1]) == SumOver(keys, m) + 1
  {
    var p, e := keys[..|keys| - 1], keys[|keys| - 1];
    assert keys == p + [e];
    if e == x {
      assert x !in p;
      SumOverFrame(p, m, m[x := m[x] + 1]);
    } else {
      SumOverBump(p, m, x);
    }
  }

  /** The counts of `Tally(s)` add up to the length of `s`. */
  lemma {:induction false} TallySum(s: seq<char>)
    ensures Tally(s).Valid()
    ensures SumOver(Tally(s).keys, Tally(s).vals) == |s|
  {
    TallyValid(s);
    if s != [] {
      var q, x := s[..|s| - 1], s[|s| - 1];
      assert s == q + [x];
      TallySum(q);
      TallySnoc(q, x);
      var d := Tally(q);
      if x in d.vals {
        SumOverBump(d.keys, d.vals, x);
      } else {
        var m' := d.vals[x := 1];
        assert x !in d.keys;
        SumOverFrame(d.keys, d.vals, m');
        assert (d.keys + [x])[..|d.keys|] == d.keys;
      }
    }
  }
}
