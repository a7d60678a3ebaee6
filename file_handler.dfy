/**
 * `FileHandler`: validated uploads into one directory, held in memory as a map from
 * stored names to contents, with de-duplication of names and path lookup.
 */
module FileHandling {
  import opened Wrappers
  import opened Text
  import opened Paths
  import opened Security

  /** The `k`-th de-duplication candidate `f"{name}_{k}{ext}"`, always built from the original name. */
  function Numbered(filename: string, k: nat): string {
    var parts := SplitExt(filename);
    parts.0 + "_" + DecimalString(k) + parts.1
  }

  /** `k` is the smallest counter whose candidate is free. */
  predicate FirstFree(filename: string, taken: set<string>, k: nat) {
    && k >= 1
    && Numbered(filename, k) !in taken
    && forall j :: 1 <= j < k ==> Numbered(filename, j) in taken
  }

  /** A candidate is never the original name: it is longer. */
  lemma NumberedIsLonger(filename: string, k: nat)
    ensures |Numbered(filename, k)| > |filename|
  {
    var parts := SplitExt(filename);
    assert |parts.0| + |parts.1| == |filename|;
  }

  /** Different counters give different candidates. */
  lemma NumberedInjective(filename: string, j: nat, k: nat)
    requires Numbered(filename, j) == Numbered(filename, k)
    ensures j == k
  {
    var parts := SplitExt(filename);
    var a := parts.0 + "_";
    var e := parts.1;
    var x := a + DecimalString(j) + e;
    var y := a + DecimalString(k) + e;
    assert DecimalString(j) == x[|a|..|x| - |e|];
    assert DecimalString(k) == y[|a|..|y| - |e|];
    DecimalInjective(j, k);
  }

  /** The name the loop tries when its counter is `c`: the name itself first, then the candidates. */
  function Candidate(filename: string, c: nat): string {
    if c <= 1 then filename else Numbered(filename, c - 1)
  }

  /** The names tried before the counter reached `c`. */
  ghost function Tried(filename: string, c: nat): set<string> {
    set i: nat | 1 <= i < c :: Candidate(filename, i)
  }

  /** Distinct counters try distinct names. */
  lemma CandidatesDistinct(filename: string, i: nat, c: nat)
    requires 1 <= i < c
    ensures Candidate(filename, i) != Candidate(filename, c)
  {
    assert Candidate(filename, c) == Numbered(filename, c - 1);
    if i == 1 {
      assert Candidate(filename, i) == filename;
      NumberedIsLonger(filename, c - 1);
    } else {
      assert Candidate(filename, i) == Numbered(filename, i - 1);
      if Numbered(filename, i - 1) == Numbered(filename, c - 1) {
        NumberedInjective(filename, i - 1, c - 1);
      }
    }
  }

  /** Every round of the loop tries a name it has not tried before. */
  lemma TriedStep(filename: string, c: nat)
    requires c >= 1
    ensures Tried(filename, c + 1) == Tried(filename, c) + {Candidate(filename, c)}
    ensures Candidate(filename, c) !in Tried(filename, c)
  {
    TriedGrows(filename, c);
    forall i: nat | 1 <= i < c
      ensures Candidate(filename, i) != Candidate(filename, c)
    {
      CandidatesDistinct(filename, i, c);
    }
  }

  /** One more round adds exactly the name tried in it. */
  lemma TriedGrows(filename: string, c: nat)
    requires c >= 1
    ensures Tried(filename, c + 1) == Tried(filename, c) + {Candidate(filename, c)}
  {
    var before, after := Tried(filename, c), Tried(filename, c + 1);
    forall i: nat | 1 <= i < c
      ensures Candidate(filename, i) in before && Candidate(filename, i) in after
    {
    }
    assert Candidate(filename, c) in after;
    assert after <= before + {Candidate(filename, c)};
  }

  /** One round of the loop keeps the tried names inside `taken` and leaves fewer untried taken names. */
  lemma LoopStep(filename: string, taken: set<string>, c: nat)
    requires c >= 1
    requires Tried(filename, c) <= taken && Candidate(filename, c) in taken
    ensures Numbered(filename, c) == Candidate(filename, c + 1)
    ensures Tried(filename, c + 1) <= taken
    ensures taken - Tried(filename, c + 1) < taken - Tried(filename, c)
  {
    TriedStep(filename, c);
  }

  /**
   * What the de-duplication loop promises: the chosen name is free; it is the name
   * itself when that is free, and otherwise the candidate with the smallest free counter.
   */
  ghost predicate Chosen(filename: string, taken: set<string>, saveName: string) {
    && saveName !in taken
    && (filename !in taken ==> saveName == filename)
    && (filename in taken ==> exists k: nat :: FirstFree(filename, taken, k) && saveName == Numbered(filename, k))
  }

  /**
   * The de-duplication loop of `save_file`. It ends because `taken` is finite and every
   * round tries a name not tried before.
   */
  method ChooseName(filename: string, taken: set<string>) returns (saveName: string)
    ensures Chosen(filename, taken, saveName)
  {
    saveName := filename;
    var counter: nat := 1;
    while saveName in taken
      invariant counter >= 1
      invariant saveName == Candidate(filename, counter)
      invariant Tried(filename, counter) <= taken
      decreases taken - Tried(filename, counter)
    {
      LoopStep(filename, taken, counter);
      saveName := Numbered(filename, counter);
      counter := counter + 1;
    }
    StopIsChosen(filename, taken, counter);
  }

  /** Where the loop stops, at the first untried free candidate, is the name `Chosen` describes. */
  lemma StopIsChosen(filename: string, taken: set<string>, c: nat)
    requires c >= 1 && Tried(filename, c) <= taken
    requires Candidate(filename, c) !in taken
    ensures Chosen(filename, taken, Candidate(filename, c))
  {
    if c > 1 {
      assert Candidate(filename, 1) in Tried(filename, c);
      forall j | 1 <= j < c - 1
        ensures Numbered(filename, j) in taken
      {
        assert Candidate(filename, j + 1) in Tried(filename, c);
      }
      assert FirstFree(filename, taken, c - 1);
    }
  }

  class FileHandler {
    /** `UPLOAD_DIR`. */
    const uploadDir: string
    /** The regular files in the upload directory, by name. */
    var uploads: map<string, seq<Byte>>

    constructor (dir: string, existing: map<string, seq<Byte>>)
      ensures uploadDir == dir && uploads == existing
    {
      uploadDir := dir;
      uploads := existing;
    }

    /** `get_file_path` for the sanitised name `safeName`. */
    function FilePath(safeName: string): (r: Option<string>)
      reads this
      ensures r.Some? <==> safeName != "" && safeName in uploads
      ensures r.Some? ==> r.value == JoinPath(uploadDir, safeName)
    {
      if safeName == "" then None
      else if safeName in uploads then Some(JoinPath(uploadDir, safeName))
      else None
    }

    /**
     * `save_file` for the sanitised name `filename`: on success the upload is stored under
     * a fresh name, which is returned and can then be looked up; on failure nothing is stored.
     */
    method SaveFile(filename: string, content: seq<Byte>) returns (ok: bool, reply: string)
      modifies this
      ensures ok <==> filename != "" && ValidateFile(filename, |content|, content) == Pass
      ensures filename == "" ==> reply == "Invalid filename."
      ensures filename != "" && ValidateFile(filename, |content|, content).Fail? ==>
        reply == Message(ValidateFile(filename, |content|, content).error)
      ensures !ok ==> uploads == old(uploads)
      ensures ok ==> reply !in old(uploads) && uploads == old(uploads)[reply := content]
      ensures ok && filename !in old(uploads) ==> reply == filename
      ensures ok && filename in old(uploads) ==>
        exists k: nat :: FirstFree(filename, old(uploads).Keys, k) && reply == Numbered(filename, k)
      ensures ok ==> FilePath(reply) == Some(JoinPath(uploadDir, reply))
    {
      if filename == "" {
        return false, "Invalid filename.";
      }
      var fileSize := |content|;
      var verdict := ValidateFile(filename, fileSize, content);
      if verdict.Fail? {
        return false, Message(verdict.error);
      }
      var saveName := ChooseName(filename, uploads.Keys);
      if filename in uploads.Keys {
        var k: nat :| FirstFree(filename, uploads.Keys, k) && saveName == Numbered(filename, k);
        NumberedIsLonger(filename, k);
      }
      uploads := uploads[saveName := content];
      return true, saveName;
    }
  }
}
