/** `sort_dict` and main's inline re-sorts: `dict(sorted(d.items(), key=value, reverse=True))`.
    Python's sort is stable and `reverse=True` keeps equal items in their original order, so
    the model is a stable insertion sort by descending score. */
module Sorting {
  import opened Wrappers
  import opened Seqs
  import opened Dicts

  /** Every listed word has a score. */
  predicate Scored(s: seq<string>, v: map<string, real>) {
    forall k :: k in s ==> k in v
  }

  /** Scores never increase along `r`. */
  predicate SortedDesc(r: seq<string>, v: map<string, real>)
    requires Scored(r, v)
  {
    forall i, j :: 0 <= i < j < |r| ==> v[r[i]] >= v[r[j]]
  }

  /** Where a word goes when it is inserted into `r` after everything already as good as
      it: past every leading word scoring at least as much, before the first that scores less. */
  function InsertPos(x: string, r: seq<string>, v: map<string, real>): (k: nat)
    requires x in v && Scored(r, v)
    ensures k <= |r|
    ensures forall i :: 0 <= i < k ==> v[r[i]] >= v[x]
    ensures k < |r| ==> v[r[k]] < v[x]
  {
    if r == [] || v[r[0]] < v[x] then 0
    else
      var k := InsertPos(x, r[1..], v);
      assert forall i :: 1 <= i < k + 1 ==> r[i] == r[1..][i - 1];
      k + 1
  }

  /** Stable sort by descending score: the list so far is sorted, and the next word is
      inserted behind every word that scores at least as much. */
  function SortDesc(s: seq<string>, v: map<string, real>): (r: seq<string>)
    requires Scored(s, v)
    ensures multiset(r) == multiset(s)
  {
    if s == [] then []
    else
      var p, e := s[..|s| - 1], s[|s| - 1];
      assert s == p + [e];
      var r := SortDesc(p, v);
      ScoredPermutation(p, r, v);
      var k := InsertPos(e, r, v);
      InsertMultiset(r, e, k);
      r[..k] + [e] + r[k..]
  }

  /** A permutation of scored words is scored. */
  lemma ScoredPermutation(s: seq<string>, r: seq<string>, v: map<string, real>)
    requires Scored(s, v) && multiset(r) == multiset(s)
    ensures Scored(r, v)
  {
    forall k | k in r ensures k in v {
      assert k in multiset(s);
    }
  }

  /** Inserting `e` at `k` adds one copy of `e`. */
  lemma InsertMultiset(r: seq<string>, e: string, k: nat)
    requires k <= |r|
    ensures multiset(r[..k] + [e] + r[k..]) == multiset(r) + multiset{e}
  {
    assert r == r[..k] + r[k..];
  }

  /** Inserting at `InsertPos` keeps a sorted list sorted. */
  lemma InsertSorted(x: string, r: seq<string>, v: map<string, real>)
    requires x in v && Scored(r, v) && SortedDesc(r, v)
    ensures Scored(r[..InsertPos(x, r, v)] + [x] + r[InsertPos(x, r, v)..], v)
    ensures SortedDesc(r[..InsertPos(x, r, v)] + [x] + r[InsertPos(x, r, v)..], v)
  {
    var k := InsertPos(x, r, v);
    var t := r[..k] + [x] + r[k..];
    InsertAt(r, x, k);
    forall y | y in t ensures y in v {
      var q :| 0 <= q < |t| && t[q] == y;
      if q < k {
        assert t[q] == r[q];
      } else if q > k {
        assert t[q] == r[q - 1];
      }
    }
    forall i, j | 0 <= i < j < |t| ensures v[t[i]] >= v[t[j]] {
      if j == k {
      } else if i == k {
        assert v[r[k]] < v[x] && v[r[k]] >= v[r[j - 1]];
      }
    }
  }

  /** `SortDesc` sorts: scores never increase along its result. */
  lemma {:induction false} SortDescSorted(s: seq<string>, v: map<string, real>)
    requires Scored(s, v)
    ensures Scored(SortDesc(s, v), v)
    ensures SortedDesc(SortDesc(s, v), v)
  {
    if s != [] {
      var p, e := s[..|s| - 1], s[|s| - 1];
      SortDescSorted(p, v);
      InsertSorted(e, SortDesc(p, v), v);
    }
  }

  /** An element found at two positions is counted at least twice. */
  lemma TwoOccurrences(s: seq<string>, i: nat, j: nat)
    requires i < j < |s| && s[i] == s[j]
    ensures multiset(s)[s[i]] >= 2
  {
    var x := s[i];
    assert s == s[..j] + [x] + s[j + 1..];
    assert s[..j][i] == x;
    assert multiset(s)[x] == multiset(s[..j])[x] + 1 + multiset(s[j + 1..])[x];
  }

  /** A list is distinct exactly when no element is counted twice. */
  lemma {:induction false} DistinctCounts(s: seq<string>)
    ensures Distinct(s) <==> forall x :: multiset(s)[x] <= 1
  {
    if s != [] {
      var p, e := s[..|s| - 1], s[|s| - 1];
      assert s == p + [e];
      DistinctCounts(p);
      DistinctSnoc(p, e);
    }
    if forall x :: multiset(s)[x] <= 1 {
      forall i, j | 0 <= i < j < |s| ensures s[i] != s[j] {
        if s[i] == s[j] {
          TwoOccurrences(s, i, j);
          assert false;
        }
      }
    }
  }

  /** A list with the same elements as a distinct list is distinct. */
  lemma DistinctPermutation(s: seq<string>, r: seq<string>)
    requires Distinct(s) && multiset(r) == multiset(s)
    ensures Distinct(r)
  {
    DistinctCounts(s);
    DistinctCounts(r);
  }

  /** In a distinct list, `x` comes before `y` exactly when its position is smaller. */
  lemma BeforeIndex(s: seq<string>, x: string, y: string)
    requires Distinct(s) && x in s && y in s
    ensures Before(s, x, y) <==> IndexOf(s, x) < IndexOf(s, y)
  {
    var i, j := IndexOf(s, x), IndexOf(s, y);
    if Before(s, x, y) {
      var a, b :| 0 <= a < b < |s| && s[a] == x && s[b] == y;
      assert a == i && b == j;
    }
    if i < j {
      assert s[i] == x && s[j] == y;
    }
  }

  /** Two different members of a distinct list come in one order or the other, not both. */
  lemma BeforeOneWay(s: seq<string>, x: string, y: string)
    requires Distinct(s) && x in s && y in s && x != y
    ensures Before(s, x, y) != Before(s, y, x)
  {
    BeforeIndex(s, x, y);
    BeforeIndex(s, y, x);
  }

  /** One insertion step of `SortDesc`. */
  lemma SortDescSnoc(p: seq<string>, e: string, v: map<string, real>)
    requires Scored(p + [e], v)
    ensures Scored(SortDesc(p, v), v)
    ensures SortDesc(p + [e], v)
      == SortDesc(p, v)[..InsertPos(e, SortDesc(p, v), v)] + [e] + SortDesc(p, v)[InsertPos(e, SortDesc(p, v), v)..]
  {
    var s := p + [e];
    assert s[..|s| - 1] == p;
    assert forall k :: k in SortDesc(p, v) ==> k in multiset(p);
  }

  /** In a sorted list, whatever follows the inserted word scores strictly less. */
  lemma InsertedFirst(r: seq<string>, e: string, v: map<string, real>, y: string)
    requires e in v && y in v && Scored(r, v) && SortedDesc(r, v) && e !in r
    ensures Before(r[..InsertPos(e, r, v)] + [e] + r[InsertPos(e, r, v)..], e, y) ==> v[y] < v[e]
  {
    var k := InsertPos(e, r, v);
    var t := r[..k] + [e] + r[k..];
    InsertAt(r, e, k);
    if Before(t, e, y) {
      var i, j :| 0 <= i < j < |t| && t[i] == e && t[j] == y;
      assert i == k;
      assert t[j] == r[j - 1];
    }
  }

  /** Where the elements of `r` sit once `e` is inserted at `k`. */
  lemma InsertAt(r: seq<string>, e: string, k: nat)
    requires k <= |r|
    ensures |r[..k] + [e] + r[k..]| == |r| + 1
    ensures (r[..k] + [e] + r[k..])[k] == e
    ensures forall q :: 0 <= q < k ==> (r[..k] + [e] + r[k..])[q] == r[q]
    ensures forall q :: k < q <= |r| ==> (r[..k] + [e] + r[k..])[q] == r[q - 1]
  {
  }

  /** One insertion step keeps two words of equal score in the order of the input. */
  lemma StableStep(p: seq<string>, e: string, v: map<string, real>, x: string, y: string)
    requires Scored(p + [e], v) && Distinct(p + [e]) && x in v && y in v && v[x] == v[y]
    requires Before(SortDesc(p, v), x, y) ==> Before(p, x, y)
    requires Before(SortDesc(p + [e], v), x, y)
    ensures Before(p + [e], x, y)
  {
    SortDescSnoc(p, e, v);
    DistinctSnoc(p, e);
    var r := SortDesc(p, v);
    var k := InsertPos(e, r, v);
    assert e !in r by { assert e !in multiset(r); }
    SortDescSorted(p, v);
    InsertedFirst(r, e, v, y);
    StableInsert(r, e, k, v, x, y);
    BeforeSnoc(p, e, x, y);
    if y == e {
      assert x in multiset(r);
    }
  }

  /** Two words of equal score, in this order once `e` is inserted at `k`, are either the
      inserted word preceded by an old one, or two old words already in this order. */
  lemma StableInsert(r: seq<string>, e: string, k: nat, v: map<string, real>, x: string, y: string)
    requires k <= |r| && e in v && x in v && y in v && v[x] == v[y]
    requires Before(r[..k] + [e] + r[k..], e, y) ==> v[y] < v[e]
    requires Before(r[..k] + [e] + r[k..], x, y)
    ensures if y == e then x in r else Before(r, x, y)
  {
    var t := r[..k] + [e] + r[k..];
    assert r[..k] + r[k..] == r;
    if y == e {
      BeforeMembers(t, x, y);
      assert x in r[..k] || x in r[k..];
    } else {
      BeforeDropOne(r[..k], e, r[k..], x, y);
    }
  }

  /** Stability: two words with equal scores keep their relative order. */
  lemma {:induction false} SortDescStable(s: seq<string>, v: map<string, real>, x: string, y: string)
    requires Scored(s, v) && Distinct(s) && x in v && y in v && v[x] == v[y]
    requires Before(SortDesc(s, v), x, y)
    ensures Before(s, x, y)
  {
    var p, e := s[..|s| - 1], s[|s| - 1];
    assert s == p + [e];
    DistinctSnoc(p, e);
    if Before(SortDesc(p, v), x, y) {
      SortDescStable(p, v, x, y);
    }
    StableStep(p, e, v, x, y);
  }

  /** The head of the sorted list is the best-scoring word of `s`, and the earliest in `s`
      among the words that score as much. */
  lemma SortDescHead(s: seq<string>, v: map<string, real>)
    requires Scored(s, v) && Distinct(s) && s != []
    ensures SortDesc(s, v) != [] && SortDesc(s, v)[0] in s
    ensures forall j :: 0 <= j < |s| ==> v[s[j]] <= v[SortDesc(s, v)[0]]
    ensures forall j :: 0 <= j < |s| && v[s[j]] == v[SortDesc(s, v)[0]] ==> SortDesc(s, v)[0] in s[..j + 1]
  {
    var r := SortDesc(s, v);
    assert s[0] in multiset(r);
    assert r[0] in multiset(s);
    forall j | 0 <= j < |s| ensures v[s[j]] <= v[r[0]]
      ensures v[s[j]] == v[r[0]] ==> r[0] in s[..j + 1]
    {
      SortDescHeadAt(s, v, j);
    }
  }

  /** The head of the sorted list measured against one word of the input. */
  lemma SortDescHeadAt(s: seq<string>, v: map<string, real>, j: nat)
    requires Scored(s, v) && Distinct(s) && j < |s|
    ensures SortDesc(s, v) != [] && SortDesc(s, v)[0] in v
    ensures v[s[j]] <= v[SortDesc(s, v)[0]]
    ensures v[s[j]] == v[SortDesc(s, v)[0]] ==> SortDesc(s, v)[0] in s[..j + 1]
  {
    var r := SortDesc(s, v);
    SortDescSorted(s, v);
    DistinctPermutation(s, r);
    assert s[j] in multiset(r);
    var q :| 0 <= q < |r| && r[q] == s[j];
    if q > 0 && v[s[j]] == v[r[0]] {
      assert Before(r, r[0], s[j]);
      SortDescStable(s, v, r[0], s[j]);
      var a, b :| 0 <= a < b < |s| && s[a] == r[0] && s[b] == s[j];
      assert b == j;
      assert s[..j + 1][a] == r[0];
    } else if q == 0 {
      assert s[..j + 1][j] == r[0];
    }
  }

  /** A word that comes first among the equally scoring words of `Dedup(u)` comes first
      among the equally scoring words of `u`. */
  lemma DedupTieFirst(u: seq<string>, v: map<string, real>, h: string)
    requires Scored(u, v) && Scored(Dedup(u), v) && h in v
    requires forall j :: 0 <= j < |Dedup(u)| && v[Dedup(u)[j]] == v[h] ==> h in Dedup(u)[..j + 1]
    ensures forall i :: 0 <= i < |u| && v[u[i]] == v[h] ==> u[i] == h || h in u[..i]
  {
    forall i | 0 <= i < |u| && v[u[i]] == v[h] && u[i] != h ensures h in u[..i] {
      DedupTieAt(u, v, h, i);
    }
  }

  lemma DedupTieAt(u: seq<string>, v: map<string, real>, h: string, i: nat)
    requires Scored(u, v) && Scored(Dedup(u), v) && h in v
    requires forall j :: 0 <= j < |Dedup(u)| && v[Dedup(u)[j]] == v[h] ==> h in Dedup(u)[..j + 1]
    requires i < |u| && v[u[i]] == v[h] && u[i] != h
    ensures h in u[..i]
  {
    var d := Dedup(u);
    DedupMembers(u);
    assert u[i] in u;
    assert u[i] in d;
    var j :| 0 <= j < |d| && d[j] == u[i];
    PrefixBefore(d, h, j);
    BeforeInDedup(u, h, u[i], i);
  }

  /** Sorting the distinct words of `u` (first occurrences first) puts first the best-scoring
      word of `u`, and the earliest in `u` among the words that score as much. */
  lemma SortDedupHead(u: seq<string>, v: map<string, real>)
    requires Scored(u, v) && u != []
    ensures Scored(Dedup(u), v)
    ensures SortDesc(Dedup(u), v) != [] && SortDesc(Dedup(u), v)[0] in u
    ensures forall i :: 0 <= i < |u| ==> v[u[i]] <= v[SortDesc(Dedup(u), v)[0]]
    ensures forall i :: 0 <= i < |u| && v[u[i]] == v[SortDesc(Dedup(u), v)[0]] ==>
      u[i] == SortDesc(Dedup(u), v)[0] || SortDesc(Dedup(u), v)[0] in u[..i]
  {
    var d := Dedup(u);
    DedupMembers(u);
    assert u[0] in d;
    SortDescHead(d, v);
    var h := SortDesc(d, v)[0];
    DedupTieFirst(u, v, h);
    forall i | 0 <= i < |u| ensures v[u[i]] <= v[h] {
      assert u[i] in u;
      assert u[i] in d;
      var j :| 0 <= j < |d| && d[j] == u[i];
    }
  }

  /** `sort_dict`: the same entries, listed by descending score, ties in their old order. */
  function SortDict(d: Dict<string, real>): (r: Dict<string, real>)
    requires d.Valid()
    ensures r.vals == d.vals
    ensures multiset(r.keys) == multiset(d.keys)
  {
    Dict(SortDesc(d.keys, d.vals), d.vals)
  }

  /** The first key of the sorted dict is a key of maximal score, and comes no later than
      any other key of that score did. */
  lemma SortDictHead(d: Dict<string, real>)
    requires d.Valid() && d.keys != []
    ensures SortDict(d).keys != [] && SortDict(d).keys[0] in d.keys
    ensures forall j :: 0 <= j < |d.keys| ==> d.vals[d.keys[j]] <= d.vals[SortDict(d).keys[0]]
    ensures forall j :: 0 <= j < |d.keys| && d.vals[d.keys[j]] == d.vals[SortDict(d).keys[0]] ==>
      SortDict(d).keys[0] in d.keys[..j + 1]
  {
    SortDescHead(d.keys, d.vals);
  }

  /** The sorted dict is a well-formed dict with the same entries, sorted by descending
      score, where words of equal score keep their old relative order. */
  lemma SortDictFacts(d: Dict<string, real>)
    requires d.Valid()
    ensures SortDict(d).Valid()
    ensures forall k :: k in SortDict(d).keys <==> k in d.keys
    ensures SortedDesc(SortDict(d).keys, d.vals)
    ensures forall x, y :: x in d.vals && y in d.vals && d.vals[x] == d.vals[y] ==>
      (Before(SortDict(d).keys, x, y) <==> Before(d.keys, x, y))
  {
    var r := SortDict(d).keys;
    DistinctPermutation(d.keys, r);
    assert forall k :: k in r <==> k in multiset(d.keys);
    SortDescSorted(d.keys, d.vals);
    forall x, y | x in d.vals && y in d.vals && d.vals[x] == d.vals[y]
      ensures Before(r, x, y) <==> Before(d.keys, x, y)
    {
      if Before(r, x, y) {
        SortDescStable(d.keys, d.vals, x, y);
      }
      if Before(d.keys, x, y) {
        BeforeOneWay(d.keys, x, y);
        BeforeOneWay(r, x, y);
        if Before(r, y, x) {
          SortDescStable(d.keys, d.vals, y, x);
        }
      }
    }
  }

  /** `list(sort_dict(d).keys())[0]`: the first key once sorted, or nothing for an empty
      dict (where the source fails with an IndexError). */
  function Top(d: Dict<string, real>): Option<string>
    requires d.Valid()
  {
    var r := SortDict(d);
    if r.keys == [] then None else Some(r.keys[0])
  }

  /** There is a top key exactly when the dict is not empty; it has maximal score, and no
      key of the same score comes before it in the dict's order. */
  lemma TopBest(d: Dict<string, real>)
    requires d.Valid()
    ensures Top(d).None? <==> d.keys == []
    ensures Top(d).Some? ==>
      && Top(d).value in d.keys
      && (forall j :: 0 <= j < |d.keys| ==> d.vals[d.keys[j]] <= d.vals[Top(d).value])
      && (forall j :: 0 <= j < |d.keys| && d.vals[d.keys[j]] == d.vals[Top(d).value] ==>
            Top(d).value in d.keys[..j + 1])
  {
    if d.keys != [] {
      SortDictHead(d);
    }
  }

  /** `TopBest` at one position of the dict. */
  lemma TopAt(d: Dict<string, real>, j: nat)
    requires d.Valid() && Top(d).Some? && j < |d.keys|
    ensures Top(d).value in d.vals && d.keys[j] in d.vals
    ensures d.vals[d.keys[j]] <= d.vals[Top(d).value]
    ensures d.vals[d.keys[j]] == d.vals[Top(d).value] ==> Top(d).value in d.keys[..j + 1]
  {
    SortDescHeadAt(d.keys, d.vals, j);
    assert Top(d).value == SortDesc(d.keys, d.vals)[0];
  }
}
