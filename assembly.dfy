/**
 * Budgeted assembly of the context string in `get_relevant_context`: walk the ranked
 * documents, skip those that scored 0, append each whole labelled section while it
 * fits within `max_chars`, and stop at the first one that does not.
 */
module Assembly {
  import opened Text
  import opened Scoring

  /** The labelled section for one document: header line, full text, blank line. */
  function Section(x: Scored): (r: string)
    ensures |r| == 21 + |x.entry.originalName| + |x.text|
  {
    "=== DOCUMENT: " + x.entry.originalName + " ===\n" + x.text + "\n\n"
  }

  /** The sections of `s`, concatenated in order. */
  function Sections(s: seq<Scored>): string {
    if s == [] then "" else Section(s[0]) + Sections(s[1..])
  }

  /** The documents with a positive score, in order. */
  function Positive(s: seq<Scored>): seq<Scored> {
    if s == [] then [] else (if s[0].score > 0 then [s[0]] else []) + Positive(s[1..])
  }

  /** The output loop, from position 0 of `s` with `acc` already accumulated. */
  function AssembleFrom(s: seq<Scored>, acc: string, maxChars: int): string {
    if s == [] then acc
    else if s[0].score == 0 then AssembleFrom(s[1..], acc, maxChars)
    else if |acc| + |Section(s[0])| > maxChars then acc
    else AssembleFrom(s[1..], acc + Section(s[0]), maxChars)
  }

  function Assemble(ranked: seq<Scored>, maxChars: int): string {
    AssembleFrom(ranked, "", maxChars)
  }

  /**
   * The first `m` positive documents make the longest run whose sections fit within
   * `maxChars`: they fit (or there are none), and every longer run does not.
   */
  ghost predicate LongestFit(p: seq<Scored>, maxChars: int, m: nat) {
    && m <= |p|
    && (m == 0 || |Sections(p[..m])| <= maxChars)
    && forall k :: m < k <= |p| ==> |Sections(p[..k])| > maxChars
  }

  /** Where the walk from `acc` stops: the next positive section, if any, does not fit. */
  ghost predicate StopsAt(p: seq<Scored>, acc: string, maxChars: int, m: nat) {
    && m <= |p|
    && (m == 0 || |acc| + |Sections(p[..m])| <= maxChars)
    && (m < |p| ==> |acc| + |Sections(p[..m + 1])| > maxChars)
  }

  lemma {:induction false} SectionsConcat(a: seq<Scored>, b: seq<Scored>)
    ensures Sections(a + b) == Sections(a) + Sections(b)
  {
    if a != [] {
      assert (a + b)[1..] == a[1..] + b;
      SectionsConcat(a[1..], b);
    } else {
      assert a + b == b;
    }
  }

  /** Longer runs of sections are longer strings. */
  lemma SectionsGrow(p: seq<Scored>, i: nat, j: nat)
    requires i <= j <= |p|
    ensures |Sections(p[..i])| <= |Sections(p[..j])|
  {
    assert p[..j] == p[..i] + p[i..j];
    SectionsConcat(p[..i], p[i..j]);
  }

  /** The walk from `acc` adds the sections of the first `m` positive documents and stops there. */
  lemma {:induction false} AssembleFromStops(s: seq<Scored>, acc: string, maxChars: int) returns (m: nat)
    ensures StopsAt(Positive(s), acc, maxChars, m)
    ensures AssembleFrom(s, acc, maxChars) == acc + Sections(Positive(s)[..m])
  {
    var p := Positive(s);
    if s == [] {
      m := 0;
      assert acc + Sections(p[..0]) == acc;
    } else if s[0].score == 0 {
      assert p == Positive(s[1..]);
      m := AssembleFromStops(s[1..], acc, maxChars);
    } else if |acc| + |Section(s[0])| > maxChars {
      m := 0;
      assert p[..1] == [s[0]];
      assert Sections(p[..1]) == Section(s[0]);
      assert acc + Sections(p[..0]) == acc;
    } else {
      var k := AssembleFromStops(s[1..], acc + Section(s[0]), maxChars);
      AppendStep(s, acc, maxChars, k);
      m := k + 1;
    }
  }

  /** A positive document that fits extends the run where the rest of the walk stops by one. */
  lemma AppendStep(s: seq<Scored>, acc: string, maxChars: int, k: nat)
    requires s != [] && s[0].score > 0 && |acc| + |Section(s[0])| <= maxChars
    requires StopsAt(Positive(s[1..]), acc + Section(s[0]), maxChars, k)
    requires AssembleFrom(s[1..], acc + Section(s[0]), maxChars) == acc + Section(s[0]) + Sections(Positive(s[1..])[..k])
    ensures StopsAt(Positive(s), acc, maxChars, k + 1)
    ensures AssembleFrom(s, acc, maxChars) == acc + Sections(Positive(s)[..k + 1])
  {
    var q := Positive(s[1..]);
    assert Positive(s) == [s[0]] + q;
    SectionsCons(s[0], q, k);
    ConcatAssociative(acc, Section(s[0]), Sections(q[..k]));
    if k < |q| {
      SectionsCons(s[0], q, k + 1);
    }
  }

  /** The first `j + 1` sections behind `h` are its own section followed by the first `j` of `q`. */
  lemma SectionsCons(h: Scored, q: seq<Scored>, j: nat)
    requires j <= |q|
    ensures Sections(([h] + q)[..j + 1]) == Section(h) + Sections(q[..j])
  {
    var r := ([h] + q)[..j + 1];
    assert r[0] == h && r[1..] == q[..j];
  }

  /**
   * The assembled context is exactly the longest run of positive-score sections, in
   * ranked order, that fits within `maxChars`; sections are never cut, and once one
   * does not fit no later one is added, however short.
   */
  lemma AssembleIsLongestFit(ranked: seq<Scored>, maxChars: int)
    ensures exists m: nat ::
      LongestFit(Positive(ranked), maxChars, m) && Assemble(ranked, maxChars) == Sections(Positive(ranked)[..m])
  {
    var p := Positive(ranked);
    var m := AssembleFromStops(ranked, "", maxChars);
    assert "" + Sections(p[..m]) == Sections(p[..m]);
    forall k | m < k <= |p|
      ensures |Sections(p[..k])| > maxChars
    {
      SectionsGrow(p, m + 1, k);
    }
    assert LongestFit(p, maxChars, m);
  }

  /** The output never exceeds the budget; with a negative budget it is empty. */
  lemma AssembleWithinBudget(ranked: seq<Scored>, maxChars: int)
    ensures maxChars >= 0 ==> |Assemble(ranked, maxChars)| <= maxChars
    ensures maxChars < 0 ==> Assemble(ranked, maxChars) == ""
  {
    AssembleIsLongestFit(ranked, maxChars);
  }

  /** Without a positive score the output is empty. */
  lemma AssembleNothingMatches(ranked: seq<Scored>, maxChars: int)
    requires Positive(ranked) == []
    ensures Assemble(ranked, maxChars) == ""
  {
    AssembleIsLongestFit(ranked, maxChars);
  }

  /** When the best match's section alone exceeds the budget, the output is empty. */
  lemma AssembleFirstTooLong(ranked: seq<Scored>, maxChars: int)
    requires Positive(ranked) != [] && |Section(Positive(ranked)[0])| > maxChars
    ensures Assemble(ranked, maxChars) == ""
  {
    var p := Positive(ranked);
    AssembleIsLongestFit(ranked, maxChars);
    assert p[..1] == [p[0]];
    assert Sections(p[..1]) == Section(p[0]);
  }

  lemma {:induction false} PositiveMembers(s: seq<Scored>)
    ensures forall x :: x in Positive(s) <==> x in s && x.score > 0
  {
    if s != [] {
      PositiveMembers(s[1..]);
      assert s == [s[0]] + s[1..];
    }
  }
}
