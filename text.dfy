/**
 * Character and string operations of the Python runtime that the core relies on:
 * `str.isspace`, `str.lower`, `str.split()` with no separator, `str.join`,
 * `in` as substring search, `str.strip() == ""` and `str(n)` for a natural number.
 */
module Text {

  /** The characters for which Python's `str.isspace()` holds; `split()` and `strip()` use the same set. */
  predicate IsSpace(c: char) {
    || ('\t' <= c <= '\r')
    || ('\U{1C}' <= c <= '\U{1F}')
    || c == ' '
    || c == '\U{85}'
    || c == '\U{A0}'
    || c == '\U{1680}'
    || ('\U{2000}' <= c <= '\U{200A}')
    || c == '\U{2028}'
    || c == '\U{2029}'
    || c == '\U{202F}'
    || c == '\U{205F}'
    || c == '\U{3000}'
  }

  predicate NoSpace(s: string) {
    forall i :: 0 <= i < |s| ==> !IsSpace(s[i])
  }

  /** `s.strip() == ""`: the string holds nothing but whitespace. */
  predicate IsBlank(s: string) {
    forall i :: 0 <= i < |s| ==> IsSpace(s[i])
  }

  /** Lower-casing of one character, restricted to ASCII letters. */
  function LowerChar(c: char): char {
    if 'A' <= c <= 'Z' then (c as int - 'A' as int + 'a' as int) as char else c
  }

  /** `s.lower()` over ASCII letters: character by character, length preserving. */
  function Lower(s: string): (r: string)
    ensures |r| == |s|
    ensures forall i :: 0 <= i < |s| ==> r[i] == LowerChar(s[i])
  {
    if s == [] then [] else [LowerChar(s[0])] + Lower(s[1..])
  }

  lemma {:induction false} LowerIdempotent(s: string)
    ensures Lower(Lower(s)) == Lower(s)
  {
    if s != [] {
      LowerIdempotent(s[1..]);
      assert Lower(s)[1..] == Lower(s[1..]);
    }
  }

  /** The input with its leading whitespace removed. */
  function DropSpaces(s: string): (r: string)
    ensures |r| <= |s| && r == s[|s| - |r|..]
    ensures r == [] || !IsSpace(r[0])
    ensures IsBlank(s[..|s| - |r|])
  {
    if s != [] && IsSpace(s[0]) then
      var r := DropSpaces(s[1..]);
      assert s[1..][..|s[1..]| - |r|] == s[1..|s| - |r|];
      r
    else s
  }

  /** The length of the longest whitespace-free prefix. */
  function WordLength(s: string): (n: nat)
    ensures n <= |s|
    ensures NoSpace(s[..n])
    ensures n < |s| ==> IsSpace(s[n])
  {
    if s == [] || IsSpace(s[0]) then 0 else 1 + WordLength(s[1..])
  }

  /**
   * Python's `s.split()` with no argument: the maximal runs of non-whitespace
   * characters, in order; runs of whitespace separate, and no token is empty.
   */
  function Split(s: string): (r: seq<string>)
    ensures forall i :: 0 <= i < |r| ==> r[i] != [] && NoSpace(r[i])
    decreases |s|
  {
    var t := DropSpaces(s);
    if t == [] then []
    else
      var n := WordLength(t);
      var rest := Split(t[n..]);
      ConsWords(t[..n], rest);
      [t[..n]] + rest
  }

  lemma ConsWords(w: string, rest: seq<string>)
    requires w != [] && NoSpace(w)
    requires forall i :: 0 <= i < |rest| ==> rest[i] != [] && NoSpace(rest[i])
    ensures forall i :: 0 <= i < |[w] + rest| ==> ([w] + rest)[i] != [] && NoSpace(([w] + rest)[i])
  {
    forall i | 0 < i < |[w] + rest|
      ensures ([w] + rest)[i] == rest[i - 1]
    {
    }
  }

  /** `sep.join(parts)`. */
  function JoinWith(parts: seq<string>, sep: string): string {
    if |parts| == 0 then ""
    else if |parts| == 1 then parts[0]
    else parts[0] + sep + JoinWith(parts[1..], sep)
  }

  lemma {:induction false} WordLengthOfWord(w: string, x: string)
    requires NoSpace(w)
    ensures WordLength(w + x) == |w| + WordLength(x)
  {
    if w != [] {
      assert (w + x)[1..] == w[1..] + x;
      WordLengthOfWord(w[1..], x);
    } else {
      assert w + x == x;
    }
  }

  lemma SplitSkipsLeadingSpace(c: char, s: string)
    requires IsSpace(c)
    ensures Split([c] + s) == Split(s)
  {
    assert ([c] + s)[1..] == s;
  }

  /** A word followed by whitespace (or nothing) is split off as the first token. */
  lemma SplitWord(w: string, rest: string)
    requires w != [] && NoSpace(w) && (rest == [] || IsSpace(rest[0]))
    ensures Split(w + rest) == [w] + Split(rest)
  {
    var s := w + rest;
    assert DropSpaces(s) == s by {
      assert s[0] == w[0];
    }
    assert WordLength(s) == |w| by {
      WordLengthOfWord(w, rest);
    }
    assert Split(s) == [s[..|w|]] + Split(s[|w|..]);
    assert s[..|w|] == w && s[|w|..] == rest;
  }

  /** One more token in front of a joined list that splits back into its tokens. */
  lemma SplitJoinCons(ts: seq<string>)
    requires |ts| > 1 && ts[0] != [] && NoSpace(ts[0])
    requires Split(JoinWith(ts[1..], " ")) == ts[1..]
    ensures Split(JoinWith(ts, " ")) == ts
  {
    var j := JoinWith(ts[1..], " ");
    var spaced := " " + j;
    SplitSkipsLeadingSpace(' ', j);
    SplitWord(ts[0], spaced);
    ConcatAssociative(ts[0], " ", j);
    assert ts == [ts[0]] + ts[1..];
  }

  /** Proof helper: sequence concatenation is associative (no counterpart in the source). */
  lemma ConcatAssociative<T>(a: seq<T>, b: seq<T>, c: seq<T>)
    ensures a + b + c == a + (b + c)
  {
  }

  /** Splitting tokens joined by single spaces gives the tokens back. */
  lemma {:induction false} SplitJoinRoundTrip(ts: seq<string>)
    requires forall i :: 0 <= i < |ts| ==> ts[i] != [] && NoSpace(ts[i])
    ensures Split(JoinWith(ts, " ")) == ts
  {
    if |ts| == 1 {
      SplitWord(ts[0], "");
      assert ts[0] + "" == ts[0];
    } else if |ts| > 1 {
      SplitJoinRoundTrip(ts[1..]);
      SplitJoinCons(ts);
    }
  }

  /** Python's `kw in text` on strings: `kw` occurs somewhere in `text` as a substring. */
  function Contains(text: string, kw: string): bool
    decreases |text|
  {
    kw <= text || (text != [] && Contains(text[1..], kw))
  }

  ghost predicate OccursAt(text: string, kw: string, i: int) {
    0 <= i && i + |kw| <= |text| && text[i..i + |kw|] == kw
  }

  /** The recursive search finds exactly the substrings: some position holds `kw`. */
  lemma {:induction false} ContainsIffOccurs(text: string, kw: string)
    ensures Contains(text, kw) <==> exists i :: OccursAt(text, kw, i)
    decreases |text|
  {
    if kw <= text {
      assert OccursAt(text, kw, 0);
    } else if text == [] {
    } else {
      ContainsIffOccurs(text[1..], kw);
      if Contains(text[1..], kw) {
        var i :| OccursAt(text[1..], kw, i);
        assert text[1..][i..i + |kw|] == text[i + 1..i + 1 + |kw|];
        assert OccursAt(text, kw, i + 1);
      }
      if exists i :: OccursAt(text, kw, i) {
        var i :| OccursAt(text, kw, i);
        assert i != 0;
        assert text[1..][i - 1..i - 1 + |kw|] == text[i..i + |kw|];
        assert OccursAt(text[1..], kw, i - 1);
      }
    }
  }

  predicate IsDigit(c: char) {
    '0' <= c <= '9'
  }

  predicate AllDigits(s: string) {
    forall i :: 0 <= i < |s| ==> IsDigit(s[i])
  }

  function DigitChar(d: nat): (c: char)
    requires d < 10
    ensures IsDigit(c)
  {
    ('0' as int + d) as char
  }

  function DigitValue(c: char): nat
    requires IsDigit(c)
  {
    c as int - '0' as int
  }

  /** Python's `str(n)` for a natural number: its decimal digits, most significant first. */
  function DecimalString(n: nat): (r: string)
    ensures |r| >= 1 && AllDigits(r)
  {
    if n < 10 then [DigitChar(n)] else DecimalString(n / 10) + [DigitChar(n % 10)]
  }

  /** `int(s)` for a string of decimal digits. */
  function ParseDecimal(s: string): nat
    requires AllDigits(s)
  {
    if s == [] then 0 else ParseDecimal(s[..|s| - 1]) * 10 + DigitValue(s[|s| - 1])
  }

  lemma {:induction false} DecimalRoundTrip(n: nat)
    ensures ParseDecimal(DecimalString(n)) == n
  {
    if n >= 10 {
      DecimalRoundTrip(n / 10);
      var s := DecimalString(n);
      assert s[..|s| - 1] == DecimalString(n / 10);
    }
  }

  /** Distinct numbers have distinct decimal renderings. */
  lemma DecimalInjective(m: nat, n: nat)
    requires DecimalString(m) == DecimalString(n)
    ensures m == n
  {
    DecimalRoundTrip(m);
    DecimalRoundTrip(n);
  }

  /** Python's `<` on strings: lexicographic by code point. */
  /** Python's `<` on strings: code-point order at the first difference, a proper prefix first. */
  predicate LexLess(a: string, b: string) {
    if a == [] then b != []
    else if b == [] then false
    else if a[0] != b[0] then a[0] < b[0]
    else LexLess(a[1..], b[1..])
  }

  /** Each string comes strictly before the next, as in `sorted` of a set. */
  predicate StrictlySorted(s: seq<string>) {
    forall i :: 0 <= i < |s| - 1 ==> LexLess(s[i], s[i + 1])
  }

  /** Two strings that agree before position `k` and differ there are ordered by that character. */
  lemma {:induction false} LexLessAt(a: string, b: string, k: nat)
    requires k < |a| && k < |b| && a[..k] == b[..k] && a[k] < b[k]
    ensures LexLess(a, b)
    decreases k
  {
    if k > 0 {
      assert a[0] == a[..k][0] == b[..k][0] == b[0];
      assert a[1..][..k - 1] == a[..k][1..] == b[..k][1..] == b[1..][..k - 1];
      LexLessAt(a[1..], b[1..], k - 1);
    }
  }
}
