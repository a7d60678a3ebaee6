/** The two `os.path` operations the core uses, for POSIX paths (separator `/`). */
module Paths {

  /** The position of the last occurrence of `c` in `s`, or -1 when there is none. */
  function LastIndexOf(s: string, c: char): (r: int)
    ensures -1 <= r < |s|
    ensures r >= 0 ==> s[r] == c
    ensures forall i :: r < i < |s| ==> s[i] != c
  {
    if s == [] then -1
    else if s[|s| - 1] == c then |s| - 1
    else LastIndexOf(s[..|s| - 1], c)
  }

  predicate AllDots(s: string) {
    forall i :: 0 <= i < |s| ==> s[i] == '.'
  }

  /** Neither a dot nor a separator occurs in `s`. */
  predicate NoDotOrSlash(s: string) {
    forall i :: 0 <= i < |s| ==> s[i] != '.' && s[i] != '/'
  }

  /** The last path component: what follows the last separator. */
  function BaseName(p: string): (b: string)
    ensures |b| <= |p| && b == p[|p| - |b|..]
    ensures forall i :: 0 <= i < |b| ==> b[i] != '/'
  {
    p[LastIndexOf(p, '/') + 1..]
  }

  /** The base name reaches back to the last separator, or to the start when there is none. */
  lemma BaseNameIsLastComponent(p: string)
    ensures |BaseName(p)| == |p| || p[|p| - |BaseName(p)| - 1] == '/'
  {
  }

  /** Every dot of `b` belongs to its leading run of dots. */
  predicate OnlyLeadingDots(b: string) {
    forall i :: 0 <= i < |b| && b[i] == '.' ==> AllDots(b[..i])
  }

  /**
   * `os.path.splitext(p)`: the extension is the suffix that starts at the last dot of
   * the last path component, provided some character other than a dot precedes that
   * dot within the component (leading dots do not start an extension: ".bashrc" has
   * none); otherwise it is empty. Root and extension always concatenate back to `p`.
   */
  function SplitExt(p: string): (r: (string, string))
    ensures r.0 + r.1 == p
    ensures r.1 != "" ==> r.1[0] == '.' && NoDotOrSlash(r.1[1..]) && !AllDots(BaseName(r.0))
    ensures r.1 == "" <==> OnlyLeadingDots(BaseName(p))
  {
    var sep := LastIndexOf(p, '/');
    var dot := LastIndexOf(p, '.');
    if dot > sep && !AllDots(p[sep + 1..dot]) then
      WithExtension(p, sep, dot);
      (p[..dot], p[dot..])
    else
      WithoutExtension(p, sep, dot);
      (p, "")
  }

  lemma LastIndexOfPrefix(p: string, c: char, k: int)
    requires LastIndexOf(p, c) < k <= |p|
    ensures LastIndexOf(p[..k], c) == LastIndexOf(p, c)
  {
    var a, b := LastIndexOf(p[..k], c), LastIndexOf(p, c);
    assert forall i :: 0 <= i < k ==> p[..k][i] == p[i];
  }

  lemma WithExtension(p: string, sep: int, dot: int)
    requires sep == LastIndexOf(p, '/') && dot == LastIndexOf(p, '.')
    requires dot > sep && !AllDots(p[sep + 1..dot])
    ensures p[..dot] + p[dot..] == p && p[dot..] != "" && p[dot..][0] == '.'
    ensures NoDotOrSlash(p[dot..][1..]) && !AllDots(BaseName(p[..dot]))
    ensures !OnlyLeadingDots(BaseName(p))
  {
    assert p[..dot] + p[dot..] == p;
    ExtensionTail(p, sep, dot);
    RootBaseName(p, sep, dot);
    InteriorDot(p, sep, dot);
  }

  /** Cutting the path at the dot leaves the last separator in place. */
  lemma RootBaseName(p: string, sep: int, dot: int)
    requires sep == LastIndexOf(p, '/') && 0 <= dot < |p| && sep < dot
    ensures BaseName(p[..dot]) == p[sep + 1..dot]
  {
    LastIndexOfPrefix(p, '/', dot);
  }

  /** The last dot, preceded in its component by something other than dots, is not leading. */
  lemma InteriorDot(p: string, sep: int, dot: int)
    requires sep == LastIndexOf(p, '/') && 0 <= dot < |p| && p[dot] == '.'
    requires sep < dot && !AllDots(p[sep + 1..dot])
    ensures !OnlyLeadingDots(BaseName(p))
  {
    var b := BaseName(p);
    assert b == p[sep + 1..];
    assert b[..dot - sep - 1] == p[sep + 1..dot];
    DotAfterNonDot(b, dot - sep - 1);
  }

  /** After the last dot, which follows the last separator, there is neither. */
  lemma ExtensionTail(p: string, sep: int, dot: int)
    requires sep == LastIndexOf(p, '/') && dot == LastIndexOf(p, '.')
    requires 0 <= dot && sep < dot
    ensures NoDotOrSlash(p[dot..][1..])
  {
    var t := p[dot..][1..];
    forall i | 0 <= i < |t|
      ensures t[i] != '.' && t[i] != '/'
    {
      assert t[i] == p[dot + 1 + i];
    }
  }

  /** A dot preceded by something other than dots is not part of the leading run. */
  lemma DotAfterNonDot(b: string, n: int)
    requires 0 <= n < |b| && b[n] == '.' && !AllDots(b[..n])
    ensures !OnlyLeadingDots(b)
  {
  }

  lemma WithoutExtension(p: string, sep: int, dot: int)
    requires sep == LastIndexOf(p, '/') && dot == LastIndexOf(p, '.')
    requires !(dot > sep && !AllDots(p[sep + 1..dot]))
    ensures p + "" == p
    ensures OnlyLeadingDots(BaseName(p))
  {
    assert p + "" == p;
    if dot <= sep {
      NoDotInBase(p, sep, dot);
    } else {
      LeadingDotsOnly(p, sep, dot);
    }
  }

  lemma NoDotInBase(p: string, sep: int, dot: int)
    requires sep == LastIndexOf(p, '/') && dot == LastIndexOf(p, '.')
    requires dot <= sep
    ensures OnlyLeadingDots(BaseName(p))
  {
    var b := p[sep + 1..];
    assert BaseName(p) == b;
    forall i | 0 <= i < |b|
      ensures b[i] != '.'
    {
      assert b[i] == p[sep + 1 + i];
    }
  }

  lemma LeadingDotsOnly(p: string, sep: int, dot: int)
    requires sep == LastIndexOf(p, '/') && dot == LastIndexOf(p, '.')
    requires sep < dot && AllDots(p[sep + 1..dot])
    ensures OnlyLeadingDots(BaseName(p))
  {
    var b := p[sep + 1..];
    var n := dot - sep - 1;
    forall i | 0 <= i < |b| && i != n
      ensures i < n ==> b[i] == '.'
      ensures i > n ==> b[i] != '.'
    {
      assert b[i] == p[sep + 1 + i];
      if i < n {
        assert p[sep + 1..dot][i] == p[sep + 1 + i];
      }
    }
    DotRunThenNone(b, n);
  }

  /** A run of dots, then no dot after position `n`: every dot is in the leading run. */
  lemma DotRunThenNone(b: string, n: int)
    requires 0 <= n < |b|
    requires forall i :: 0 <= i < n ==> b[i] == '.'
    requires forall i :: n < i < |b| ==> b[i] != '.'
    ensures OnlyLeadingDots(b)
  {
    forall i | 0 <= i < |b| && b[i] == '.'
      ensures AllDots(b[..i])
    {
      forall j | 0 <= j < i
        ensures b[..i][j] == '.'
      {
        assert b[..i][j] == b[j];
      }
    }
  }

  /** A path that is empty or ends in a separator needs none added before the next component. */
  predicate EndsInSeparator(dir: string) {
    dir == "" || dir[|dir| - 1] == '/'
  }

  /**
   * `os.path.join(dir, name)` for two components: an absolute `name` replaces `dir`;
   * otherwise a separator is inserted exactly when `dir` is non-empty and does not
   * already end in one.
   */
  function JoinPath(dir: string, name: string): (r: string)
    ensures name != "" && name[0] == '/' ==> r == name
    ensures (name == "" || name[0] != '/') && EndsInSeparator(dir) ==> r == dir + name
    ensures (name == "" || name[0] != '/') && !EndsInSeparator(dir) ==> r == dir + "/" + name
  {
    if name != "" && name[0] == '/' then name
    else if dir == "" || dir[|dir| - 1] == '/' then dir + name
    else dir + "/" + name
  }

  /**
   * Joining a plain file name under a directory and taking the base name gives the file
   * name back: the separator that join puts (or finds) in front of it is the last one.
   */
  lemma BaseNameOfJoin(dir: string, name: string)
    requires name != [] && forall i :: 0 <= i < |name| ==> name[i] != '/'
    ensures BaseName(JoinPath(dir, name)) == name
  {
    var prefix := if EndsInSeparator(dir) then dir else dir + "/";
    var r := JoinPath(dir, name);
    assert r == prefix + name;
    var sep := LastIndexOf(r, '/');
    forall i | |prefix| <= i < |r|
      ensures r[i] != '/'
    {
      assert r[i] == name[i - |prefix|];
    }
    if prefix != "" {
      assert r[|prefix| - 1] == '/';
    }
    assert sep == |prefix| - 1;
    assert r[sep + 1..] == name;
  }
}
