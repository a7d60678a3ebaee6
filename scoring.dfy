/**
 * Relevance scoring of `KnowledgeBase.get_relevant_context`: the keyword set of a
 * query and the presence count of those keywords in a document's lower-cased text.
 */
module Scoring {
  import opened Text
  import opened DocIndex

  /** `KnowledgeBase.STOP_WORDS`. */
  const StopWords: set<string> := {
    "the", "is", "a", "an", "what", "how", "do", "does", "are", "was",
    "were", "be", "to", "of", "and", "in", "for", "on", "with", "at",
    "by", "it", "i", "my", "me", "our", "this", "that", "can", "will"
  }

  /** `set(user_query.lower().split())`. */
  function Tokens(query: string): set<string> {
    set t | t in Split(Lower(query))
  }

  /** The keyword set: the tokens minus the stop words, or all tokens when none survives. */
  function Keywords(query: string): set<string> {
    var filtered := Tokens(query) - StopWords;
    if filtered == {} then Tokens(query) else filtered
  }

  /** `sum(1 for kw in keywords if kw in text_lower)`: how many distinct keywords occur. */
  function Score(keywords: set<string>, textLower: string): nat {
    |set k | k in keywords && Contains(textLower, k)|
  }

  /** One document that has an extracted-text artifact, with its text and score. */
  datatype Scored = Scored(entry: DocEntry, text: string, score: nat)

  /**
   * The `scored` list: every index entry whose artifact exists, in index order, paired
   * with its text and score; entries without an artifact are skipped.
   */
  function ScoreAll(index: seq<DocEntry>, texts: map<string, string>, keywords: set<string>): (r: seq<Scored>)
    ensures |r| <= |index|
    ensures forall x :: x in r ==>
      && x.entry in index && x.entry.id in texts && x.text == texts[x.entry.id]
      && x.score == Score(keywords, Lower(x.text))
    ensures forall e :: e in index && e.id in texts ==> Scored(e, texts[e.id], Score(keywords, Lower(texts[e.id]))) in r
  {
    if index == [] then []
    else
      var front := index[..|index| - 1];
      var e := index[|index| - 1];
      assert index == front + [e];
      ScoreAll(front, texts, keywords)
      + (if e.id in texts then [Scored(e, texts[e.id], Score(keywords, Lower(texts[e.id])))] else [])
  }

  /** Whitespace is unaffected by lower-casing. */
  lemma LowerKeepsSpaces(s: string)
    ensures IsBlank(Lower(s)) <==> IsBlank(s)
  {
    assert forall i :: 0 <= i < |s| ==> (IsSpace(Lower(s)[i]) <==> IsSpace(s[i]));
  }

  /** `split()` yields no token exactly when the string is blank. */
  lemma {:induction false} SplitEmptyIffBlank(s: string)
    ensures Split(s) == [] <==> IsBlank(s)
  {
    DropSpacesEmptyIffBlank(s);
    var t := DropSpaces(s);
    if t != [] {
      assert |Split(s)| >= 1;
    }
  }

  /** Dropping leading whitespace leaves nothing exactly when the string is all whitespace. */
  lemma DropSpacesEmptyIffBlank(s: string)
    ensures DropSpaces(s) == [] <==> IsBlank(s)
  {
    var r := DropSpaces(s);
    if r == [] {
      assert s[..|s|] == s;
    } else {
      assert r[0] == s[|s| - |r|];
    }
  }

  /** No upper-case ASCII letter occurs in `s`. */
  predicate AllLower(s: string) {
    forall i :: 0 <= i < |s| ==> LowerChar(s[i]) == s[i]
  }

  lemma SliceLower(s: string, i: int, j: int)
    requires AllLower(s) && 0 <= i <= j <= |s|
    ensures AllLower(s[i..j])
  {
    forall k | 0 <= k < j - i
      ensures LowerChar(s[i..j][k]) == s[i..j][k]
    {
      assert s[i..j][k] == s[i + k];
    }
  }

  /** Splitting a string without upper-case letters gives tokens without them. */
  lemma {:induction false} SplitKeepsLower(s: string)
    requires AllLower(s)
    ensures forall j :: 0 <= j < |Split(s)| ==> AllLower(Split(s)[j])
    decreases |s|
  {
    var t := DropSpaces(s);
    if t != [] {
      var n := WordLength(t);
      var rest := t[n..];
      SliceLower(s, |s| - |t|, |s|);
      SliceLower(t, 0, n);
      SliceLower(t, n, |t|);
      SplitKeepsLower(rest);
      var r := Split(s);
      assert r == [t[..n]] + Split(rest);
      forall j | 0 <= j < |r|
        ensures AllLower(r[j])
      {
        if j > 0 {
          assert r[j] == Split(rest)[j - 1];
        }
      }
    }
  }

  /** An empty keyword set arises exactly from a blank query. */
  lemma KeywordsEmptyIffBlank(query: string)
    ensures Keywords(query) == {} <==> IsBlank(query)
  {
    SplitEmptyIffBlank(Lower(query));
    LowerKeepsSpaces(query);
    if Split(Lower(query)) != [] {
      assert Split(Lower(query))[0] in Tokens(query);
    }
  }

  /**
   * The keywords are tokens of the query; they avoid the stop words unless every token
   * is one (the fall-back); and each is non-empty, free of whitespace and lower-case.
   */
  lemma KeywordsShape(query: string)
    ensures Keywords(query) <= Tokens(query)
    ensures !(Tokens(query) <= StopWords) ==> Keywords(query) == Tokens(query) - StopWords
    ensures Tokens(query) <= StopWords ==> Keywords(query) == Tokens(query)
    ensures forall k :: k in Keywords(query) ==> k != "" && NoSpace(k) && Lower(k) == k
  {
    forall k | k in Keywords(query)
      ensures k != "" && NoSpace(k) && Lower(k) == k
    {
      TokenIsLowerCase(query, k);
    }
  }

  lemma TokenIsLowerCase(query: string, k: string)
    requires k in Tokens(query)
    ensures k != "" && NoSpace(k) && Lower(k) == k
  {
    var s := Lower(query);
    assert AllLower(s);
    SplitKeepsLower(s);
    var j :| 0 <= j < |Split(s)| && Split(s)[j] == k;
    assert AllLower(k);
  }

  /** The score counts keywords, not occurrences: at most one point per keyword. */
  lemma ScoreBounds(keywords: set<string>, textLower: string)
    ensures Score(keywords, textLower) <= |keywords|
    ensures Score(keywords, textLower) == 0 <==> forall k :: k in keywords ==> !Contains(textLower, k)
    ensures Score(keywords, textLower) == |keywords| <==> forall k :: k in keywords ==> Contains(textLower, k)
  {
    var hits := set k | k in keywords && Contains(textLower, k);
    assert hits <= keywords;
    SubsetCardinality(hits, keywords);
    if forall k :: k in keywords ==> !Contains(textLower, k) {
      assert hits == {};
    }
    if Score(keywords, textLower) == 0 {
      assert hits == {};
    }
    if forall k :: k in keywords ==> Contains(textLower, k) {
      assert hits == keywords;
    }
    if exists k :: k in keywords && !Contains(textLower, k) {
      var k :| k in keywords && !Contains(textLower, k);
      assert hits <= keywords - {k};
      SubsetCardinality(hits, keywords - {k});
    }
  }

  lemma SubsetCardinality<T>(a: set<T>, b: set<T>)
    requires a <= b
    ensures |a| <= |b|
  {
    assert b == a + (b - a);
  }

  /** An empty text scores 0 for every query. */
  lemma EmptyTextScoresZero(query: string)
    ensures Score(Keywords(query), "") == 0
  {
    KeywordsShape(query);
    ScoreBounds(Keywords(query), "");
  }

  /** A blank query gives every document the score 0. */
  lemma BlankQueryScoresZero(query: string, textLower: string)
    requires IsBlank(query)
    ensures Score(Keywords(query), textLower) == 0
  {
    KeywordsEmptyIffBlank(query);
    ScoreBounds(Keywords(query), textLower);
  }

  /** Scoring works entry by entry, so the scored list keeps the index order. */
  lemma {:induction false} ScoreAllConcat(a: seq<DocEntry>, b: seq<DocEntry>, texts: map<string, string>, keywords: set<string>)
    ensures ScoreAll(a + b, texts, keywords) == ScoreAll(a, texts, keywords) + ScoreAll(b, texts, keywords)
    decreases |b|
  {
    if b == [] {
      assert a + b == a;
    } else {
      var b' := b[..|b| - 1];
      assert (a + b)[..|a + b| - 1] == a + b';
      ScoreAllConcat(a, b', texts, keywords);
    }
  }
}
