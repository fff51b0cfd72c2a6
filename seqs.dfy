/** Sequence vocabulary shared by the pipeline: distinctness, first-occurrence order,
    concatenation of words, stable filtering, relative order, and Python's `list.remove`. */
module Seqs {

  /** No element occurs twice in `s`. */
  predicate Distinct<T(==)>(s: seq<T>) {
    forall i, j :: 0 <= i < j < |s| ==> s[i] != s[j]
  }

  /** In a distinct list no element occurs before its own position. */
  lemma DistinctNotBefore<T>(s: seq<T>, i: nat)
    requires Distinct(s) && i < |s|
    ensures s[i] !in s[..i]
  {
    forall q | 0 <= q < i ensures s[..i][q] != s[i] {
      assert s[..i][q] == s[q];
    }
  }

  /** A list extended by one element is distinct when the list is and the element is new. */
  lemma DistinctSnoc<T>(s: seq<T>, e: T)
    ensures Distinct(s + [e]) <==> Distinct(s) && e !in s
  {
    var t := s + [e];
    if Distinct(t) {
      forall i | 0 <= i < |s| ensures s[i] != e {
        assert t[i] == s[i] && t[|s|] == e;
      }
      forall i, j | 0 <= i < j < |s| ensures s[i] != s[j] {
        assert t[i] == s[i] && t[j] == s[j];
      }
    }
    if Distinct(s) && e !in s {
      forall i, j | 0 <= i < j < |t| ensures t[i] != t[j] {
        assert t[i] == s[i];
        if j < |s| {
          assert t[j] == s[j];
        }
      }
    }
  }

  /** The elements of `s`, each once, in order of first occurrence: the key order of a
      Python dict (or `Counter`) filled by scanning `s` from the left. */
  function Dedup<T(==)>(s: seq<T>): seq<T> {
    if s == [] then []
    else
      var d := Dedup(s[..|s| - 1]);
      if s[|s| - 1] in d then d else d + [s[|s| - 1]]
  }

  /** Extending the list by one element extends its first-occurrence order by that element
      when it is new. */
  lemma DedupSnoc<T>(s: seq<T>, e: T)
    ensures Dedup(s + [e]) == if e in s then Dedup(s) else Dedup(s) + [e]
  {
    assert (s + [e])[..|s|] == s;
    DedupMembers(s);
  }

  /** `Dedup` keeps every element once and nothing else. */
  lemma {:induction false} DedupMembers<T>(s: seq<T>)
    ensures Distinct(Dedup(s))
    ensures forall x :: x in Dedup(s) <==> x in s
    ensures |Dedup(s)| <= |s|
  {
    if s != [] {
      var p := s[..|s| - 1];
      DedupMembers(p);
      assert s == p + [s[|s| - 1]];
    }
  }

  /** `Dedup` drops nothing exactly when nothing repeats. */
  lemma {:induction false} DedupLength<T>(s: seq<T>)
    ensures |Dedup(s)| == |s| <==> Distinct(s)
  {
    if s != [] {
      var p, e := s[..|s| - 1], s[|s| - 1];
      assert s == p + [e];
      DedupLength(p);
      DedupMembers(p);
      if e in p {
        var k :| 0 <= k < |p| && p[k] == e;
        assert s[k] == s[|s| - 1];
      } else {
        assert Distinct(s) <==> Distinct(p) by {
          if Distinct(p) {
            forall i, j | 0 <= i < j < |s| ensures s[i] != s[j] {
              if j == |s| - 1 { assert s[i] in p; }
            }
          }
        }
      }
    }
  }

  /** The concatenation of a sequence of sequences (all letters of a word list). */
  function Flatten<T>(ss: seq<seq<T>>): seq<T> {
    if ss == [] then [] else Flatten(ss[..|ss| - 1]) + ss[|ss| - 1]
  }

  /** The elements of `Flatten(ss)` are those of the members of `ss`. */
  lemma {:induction false} FlattenMembers<T>(ss: seq<seq<T>>)
    ensures forall x :: x in Flatten(ss) ==> exists w :: w in ss && x in w
    ensures forall w, x :: w in ss && x in w ==> x in Flatten(ss)
  {
    if ss != [] {
      var p := ss[..|ss| - 1];
      assert ss == p + [ss[|ss| - 1]];
      FlattenMembers(p);
    }
  }

  /** Flattening a list extended by one word appends that word's letters. */
  lemma FlattenSnoc<T>(ss: seq<seq<T>>, w: seq<T>)
    ensures Flatten(ss + [w]) == Flatten(ss) + w
  {
    assert (ss + [w])[..|ss|] == ss;
  }

  /** One more member of a prefix adds its elements at the end of the flattened prefix. */
  lemma FlattenPrefix<T>(ss: seq<seq<T>>, i: nat)
    requires i < |ss|
    ensures Flatten(ss[..i + 1]) == Flatten(ss[..i]) + ss[i]
  {
    assert ss[..i + 1] == ss[..i] + [ss[i]];
    FlattenSnoc(ss[..i], ss[i]);
  }

  /** The elements of `s` that satisfy `p`, in their original order, repeats kept. */
  function Filter<T>(s: seq<T>, p: T -> bool): seq<T> {
    if s == [] then []
    else Filter(s[..|s| - 1], p) + (if p(s[|s| - 1]) then [s[|s| - 1]] else [])
  }

  /** `Filter` keeps exactly the elements that pass, each as often as it occurs. */
  lemma {:induction false} FilterMembers<T>(s: seq<T>, p: T -> bool)
    ensures |Filter(s, p)| <= |s|
    ensures forall x :: x in Filter(s, p) ==> x in s && p(x)
    ensures forall x :: x in s ==> multiset(Filter(s, p))[x] == if p(x) then multiset(s)[x] else 0
  {
    if s != [] {
      var q, e := s[..|s| - 1], s[|s| - 1];
      assert s == q + [e];
      FilterMembers(q, p);
    }
  }

  lemma {:induction false} FilterConcat<T>(a: seq<T>, b: seq<T>, p: T -> bool)
    ensures Filter(a + b, p) == Filter(a, p) + Filter(b, p)
  {
    if b == [] {
      assert a + b == a;
    } else {
      var q := b[..|b| - 1];
      FilterConcat(a, q, p);
      assert (a + b)[..|a + b| - 1] == a + q;
    }
  }

  /** A filter that every element passes is the identity. */
  lemma {:induction false} FilterAll<T>(s: seq<T>, p: T -> bool)
    requires forall x :: x in s ==> p(x)
    ensures Filter(s, p) == s
  {
    if s != [] {
      var q := s[..|s| - 1];
      assert s == q + [s[|s| - 1]];
      FilterAll(q, p);
    }
  }

  /** An element that passes the filter sits in the filtered sequence right after the
      filtered elements before it. */
  lemma FilterAt<T>(s: seq<T>, p: T -> bool, i: nat)
    requires i < |s| && p(s[i])
    ensures |Filter(s[..i], p)| < |Filter(s, p)|
    ensures Filter(s, p)[|Filter(s[..i], p)|] == s[i]
    ensures Filter(s, p)[..|Filter(s[..i], p)|] == Filter(s[..i], p)
  {
    assert s == s[..i] + [s[i]] + s[i + 1..];
    FilterConcat(s[..i] + [s[i]], s[i + 1..], p);
    FilterConcat(s[..i], [s[i]], p);
    assert Filter([s[i]], p) == [s[i]] by { assert [s[i]][..0] == []; }
  }

  /** `r` can be obtained from `s` by deleting elements (the order is kept). */
  ghost predicate Subseq<T>(r: seq<T>, s: seq<T>) {
    if r == [] then true
    else if s == [] then false
    else (r[|r| - 1] == s[|s| - 1] && Subseq(r[..|r| - 1], s[..|s| - 1])) || Subseq(r, s[..|s| - 1])
  }

  lemma {:induction false} FilterSubseq<T>(s: seq<T>, p: T -> bool)
    ensures Subseq(Filter(s, p), s)
  {
    if s != [] {
      var q, e := s[..|s| - 1], s[|s| - 1];
      FilterSubseq(q, p);
      if p(e) {
        var r := Filter(s, p);
        assert r[..|r| - 1] == Filter(q, p);
      } else {
        assert Filter(s, p) == Filter(q, p);
      }
    }
  }

  /** The position of the first occurrence of `x` in `s`. */
  function IndexOf<T(==)>(s: seq<T>, x: T): (i: nat)
    requires x in s
    ensures i < |s| && s[i] == x && x !in s[..i]
  {
    if s[0] == x then 0
    else
      var j := IndexOf(s[1..], x);
      assert s[..j + 1] == [s[0]] + s[1..][..j];
      j + 1
  }

  /** Python's `list.remove(x)`: deletes the first occurrence of `x` (a list without `x`
      is returned unchanged here; the pipeline only removes elements that are present). */
  function RemoveFirst<T(==)>(s: seq<T>, x: T): (r: seq<T>)
    ensures x !in s ==> r == s
    ensures x in s ==> r == s[..IndexOf(s, x)] + s[IndexOf(s, x) + 1..]
    ensures x in s ==> multiset(r) == multiset(s) - multiset{x}
    ensures forall y :: y in r ==> y in s
  {
    if x in s then
      var i := IndexOf(s, x);
      assert s == s[..i] + [x] + s[i + 1..];
      s[..i] + s[i + 1..]
    else s
  }

  /** Removing an element the filter rejects leaves the filtered sequence as it was. */
  lemma RemoveRejected<T>(s: seq<T>, x: T, p: T -> bool)
    requires !p(x)
    ensures Filter(RemoveFirst(s, x), p) == Filter(s, p)
  {
    if x in s {
      var i := IndexOf(s, x);
      var a, b := s[..i], s[i + 1..];
      assert s == a + [x] + b;
      assert RemoveFirst(s, x) == a + b;
      FilterConcat(a + [x], b, p);
      FilterConcat(a, [x], p);
      FilterConcat(a, b, p);
      assert Filter([x], p) == [] by { assert [x][..0] == []; }
      assert Filter(a + [x], p) == Filter(a, p);
    }
  }

  /** Some occurrence of `x` comes before some occurrence of `y` in `s`. */
  ghost predicate Before<T>(s: seq<T>, x: T, y: T) {
    exists i, j :: 0 <= i < j < |s| && s[i] == x && s[j] == y
  }

  lemma BeforeSnoc<T>(s: seq<T>, e: T, x: T, y: T)
    ensures Before(s + [e], x, y) <==> Before(s, x, y) || (y == e && x in s)
  {
    var t := s + [e];
    if Before(t, x, y) {
      var i, j :| 0 <= i < j < |t| && t[i] == x && t[j] == y;
      if j < |s| {
        assert s[i] == x && s[j] == y;
      } else {
        assert s[i] == x;
      }
    }
    if y == e && x in s {
      var i :| 0 <= i < |s| && s[i] == x;
      assert t[i] == x && t[|s|] == y;
    }
    if Before(s, x, y) {
      var i, j :| 0 <= i < j < |s| && s[i] == x && s[j] == y;
      assert t[i] == x && t[j] == y;
    }
  }

  lemma BeforeMembers<T>(s: seq<T>, x: T, y: T)
    ensures Before(s, x, y) ==> x in s && y in s
  {
  }

  /** An element other than `s[j]` found in `s[..j + 1]` comes before `s[j]`. */
  lemma PrefixBefore<T>(s: seq<T>, x: T, j: nat)
    requires j < |s| && x in s[..j + 1] && x != s[j]
    ensures Before(s, x, s[j])
  {
    var a :| 0 <= a < j + 1 && s[..j + 1][a] == x;
    assert s[a] == x && a < j;
  }

  /** Deleting one element other than `x` and `y` keeps `x` before `y`. */
  lemma BeforeDropOne<T>(a: seq<T>, e: T, b: seq<T>, x: T, y: T)
    requires Before(a + [e] + b, x, y) && x != e && y != e
    ensures Before(a + b, x, y)
  {
    var t, u := a + [e] + b, a + b;
    var i, j :| 0 <= i < j < |t| && t[i] == x && t[j] == y;
    assert i != |a| && j != |a|;
    var i' := if i < |a| then i else i - 1;
    var j' := if j < |a| then j else j - 1;
    assert u[i'] == x && u[j'] == y;
  }

  /** If `x` comes before `y` in the first-occurrence order of `u`, then the first `x`
      precedes every occurrence of `y` in `u`. */
  lemma {:induction false} BeforeInDedup<T>(u: seq<T>, x: T, y: T, i: nat)
    requires Before(Dedup(u), x, y) && i < |u| && u[i] == y
    ensures x in u[..i]
  {
    var p, e := u[..|u| - 1], u[|u| - 1];
    assert u == p + [e];
    var d := Dedup(p);
    DedupMembers(p);
    if e in d {
      if i < |p| {
        BeforeInDedup(p, x, y, i);
        assert u[..i] == p[..i];
      } else {
        var k :| 0 <= k < |p| && p[k] == e;
        BeforeInDedup(p, x, y, k);
        assert p[..k] <= u[..i];
      }
    } else {
      BeforeSnoc(d, e, x, y);
      BeforeMembers(d, x, y);
      if i < |p| {
        assert p[i] == y;
        BeforeInDedup(p, x, y, i);
        assert u[..i] == p[..i];
      } else {
        assert u[..i] == p;
      }
    }
  }
}
