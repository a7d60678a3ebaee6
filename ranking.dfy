/**
 * `scored.sort(key=lambda item: item[2], reverse=True)`: Python's sort is stable, also
 * with `reverse=True`, so documents are ordered by score, highest first, and documents
 * with equal scores keep the order of the index.
 */
module Ranking {
  import opened Scoring

  predicate SortedByScoreDesc(s: seq<Scored>) {
    forall i, j :: 0 <= i < j < |s| ==> s[i].score >= s[j].score
  }

  /** The documents with score `k`, in the order in which they appear. */
  function WithScore(s: seq<Scored>, k: nat): seq<Scored> {
    if s == [] then [] else (if s[0].score == k then [s[0]] else []) + WithScore(s[1..], k)
  }

  /** Insert `x` in front of the first document that does not score higher. */
  function Insert(x: Scored, s: seq<Scored>): (r: seq<Scored>)
    ensures multiset(r) == multiset(s) + multiset{x}
  {
    if s == [] then [x]
    else if s[0].score > x.score then
      assert s == [s[0]] + s[1..];
      [s[0]] + Insert(x, s[1..])
    else [x] + s
  }

  /** Inserting an element no higher than a bound into a list bounded by it keeps every score within it. */
  lemma {:induction false} InsertBounded(x: Scored, s: seq<Scored>, bound: nat)
    requires x.score <= bound
    requires forall i :: 0 <= i < |s| ==> s[i].score <= bound
    ensures forall i :: 0 <= i < |Insert(x, s)| ==> Insert(x, s)[i].score <= bound
  {
    if s != [] && s[0].score > x.score {
      InsertBounded(x, s[1..], bound);
      var t := Insert(x, s[1..]);
      assert Insert(x, s) == [s[0]] + t;
    }
  }

  /** A sorted list behind an element that scores at least as high as all of it is sorted. */
  lemma ConsSorted(h: Scored, t: seq<Scored>)
    requires SortedByScoreDesc(t)
    requires forall i :: 0 <= i < |t| ==> t[i].score <= h.score
    ensures SortedByScoreDesc([h] + t)
  {
    var r := [h] + t;
    forall i, j | 0 <= i < j < |r|
      ensures r[i].score >= r[j].score
    {
      assert r[j] == t[j - 1];
      if i > 0 {
        assert r[i] == t[i - 1];
      }
    }
  }

  lemma {:induction false} InsertSorted(x: Scored, s: seq<Scored>)
    requires SortedByScoreDesc(s)
    ensures SortedByScoreDesc(Insert(x, s))
  {
    if s != [] && s[0].score > x.score {
      var tail := s[1..];
      assert forall i :: 0 <= i < |tail| ==> tail[i] == s[i + 1];
      InsertSorted(x, tail);
      InsertBounded(x, tail, s[0].score);
      ConsSorted(s[0], Insert(x, tail));
    }
  }

  /** The sorted list: an insertion sort, which is stable by construction of `Insert`. */
  function SortByScore(s: seq<Scored>): (r: seq<Scored>)
    ensures multiset(r) == multiset(s) && |r| == |s|
    ensures SortedByScoreDesc(r)
  {
    if s == [] then []
    else
      assert s == [s[0]] + s[1..];
      InsertSorted(s[0], SortByScore(s[1..]));
      Insert(s[0], SortByScore(s[1..]))
  }

  /** Insertion puts the new element first among the elements of its score. */
  lemma {:induction false} InsertKeepsScoreClasses(x: Scored, s: seq<Scored>, k: nat)
    ensures WithScore(Insert(x, s), k) == (if x.score == k then [x] else []) + WithScore(s, k)
  {
    var mine := if x.score == k then [x] else [];
    var r := Insert(x, s);
    if s != [] && s[0].score > x.score {
      var t := Insert(x, s[1..]);
      var head := if s[0].score == k then [s[0]] else [];
      InsertKeepsScoreClasses(x, s[1..], k);
      assert r[0] == s[0] && r[1..] == t;
      var rest := WithScore(s[1..], k);
      assert WithScore(r, k) == head + (mine + rest);
      assert WithScore(s, k) == head + rest;
      if x.score == k {
        assert head == [];
        assert head + (mine + rest) == mine + rest;
        assert head + rest == rest;
      } else {
        assert mine == [];
        assert mine + rest == rest;
        assert mine + (head + rest) == head + rest;
      }
    } else {
      assert r[0] == x && r[1..] == s;
      assert WithScore(r, k) == mine + WithScore(s, k);
    }
  }

  /** Stability: for every score, the documents with that score keep their relative order. */
  lemma {:induction false} SortKeepsScoreClasses(s: seq<Scored>, k: nat)
    ensures WithScore(SortByScore(s), k) == WithScore(s, k)
  {
    if s != [] {
      SortKeepsScoreClasses(s[1..], k);
      InsertKeepsScoreClasses(s[0], SortByScore(s[1..]), k);
    }
  }

  lemma {:induction false} WithScoreMembers(s: seq<Scored>, k: nat)
    ensures forall y :: y in WithScore(s, k) <==> y in s && y.score == k
  {
    if s != [] {
      WithScoreMembers(s[1..], k);
      assert s == [s[0]] + s[1..];
    }
  }

  lemma BothEmptyOrNeither(a: seq<Scored>, b: seq<Scored>)
    requires forall k :: WithScore(a, k) == WithScore(b, k)
    ensures a == [] <==> b == []
  {
    if a != [] {
      assert WithScore(b, a[0].score) == WithScore(a, a[0].score) != [];
    }
    if b != [] {
      assert WithScore(a, b[0].score) == WithScore(b, b[0].score) != [];
    }
  }

  /** Proof helper: a score class splits at the first element (no counterpart in the source). */
  lemma WithScoreCons(a: seq<Scored>, k: nat)
    requires a != []
    ensures WithScore(a, k) == (if a[0].score == k then [a[0]] else []) + WithScore(a[1..], k)
  {
  }

  /** Two sorted lists with the same score classes start with the same element. */
  lemma SameHead(a: seq<Scored>, b: seq<Scored>)
    requires a != [] && b != []
    requires SortedByScoreDesc(a) && SortedByScoreDesc(b)
    requires forall k :: WithScore(a, k) == WithScore(b, k)
    ensures a[0] == b[0]
  {
    var m, n := a[0].score, b[0].score;
    WithScoreMembers(a, n);
    WithScoreMembers(b, m);
    WithScoreCons(a, m);
    WithScoreCons(b, n);
    assert a[0] in WithScore(b, m);
    assert b[0] in WithScore(a, n);
    assert n >= m by {
      var i :| 0 <= i < |b| && b[i] == a[0];
    }
    assert m >= n by {
      var i :| 0 <= i < |a| && a[i] == b[0];
    }
    WithScoreCons(b, m);
    assert WithScore(a, m)[0] == a[0] && WithScore(b, m)[0] == b[0];
  }

  /** Removing the same first element from both lists keeps their score classes equal. */
  lemma SameTailClasses(a: seq<Scored>, b: seq<Scored>)
    requires a != [] && b != [] && a[0] == b[0]
    requires forall k :: WithScore(a, k) == WithScore(b, k)
    ensures forall k :: WithScore(a[1..], k) == WithScore(b[1..], k)
  {
    forall k
      ensures WithScore(a[1..], k) == WithScore(b[1..], k)
    {
      WithScoreCons(a, k);
      WithScoreCons(b, k);
      var head := if a[0].score == k then [a[0]] else [];
      assert WithScore(a[1..], k) == WithScore(a, k)[|head|..];
      assert WithScore(b[1..], k) == WithScore(b, k)[|head|..];
    }
  }

  /**
   * A stable descending order is unique: two orderings that are both sorted by score and
   * agree on the order within every score are the same sequence.
   */
  lemma {:induction false} StableOrderIsUnique(a: seq<Scored>, b: seq<Scored>)
    requires SortedByScoreDesc(a) && SortedByScoreDesc(b)
    requires forall k :: WithScore(a, k) == WithScore(b, k)
    ensures a == b
    decreases |a|
  {
    BothEmptyOrNeither(a, b);
    if a != [] {
      SameHead(a, b);
      SameTailClasses(a, b);
      StableOrderIsUnique(a[1..], b[1..]);
      assert a == [a[0]] + a[1..] && b == [b[0]] + b[1..];
    }
  }

  /**
   * `SortByScore` is the stable descending sort: any ordering that is sorted by score and
   * keeps equal scores in their original order, as Python's `sort` does, equals it.
   */
  lemma StableSortIsSortByScore(s: seq<Scored>, t: seq<Scored>)
    requires SortedByScoreDesc(t)
    requires forall k :: WithScore(t, k) == WithScore(s, k)
    ensures t == SortByScore(s)
  {
    forall k
      ensures WithScore(t, k) == WithScore(SortByScore(s), k)
    {
      SortKeepsScoreClasses(s, k);
    }
    StableOrderIsUnique(t, SortByScore(s));
  }
}
