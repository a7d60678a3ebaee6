/**
 * `KnowledgeBase`: the document index, the extracted-text artifacts and the stored
 * documents, held in memory in place of the index file and the two directories, with
 * ingestion, removal, listing and retrieval of relevant context for a query.
 */
module KnowledgeBase {
  import opened Wrappers
  import opened Text
  import opened Security
  import opened DocIndex
  import opened Scoring
  import opened Ranking
  import opened Assembly
  import opened Extraction

  /** `KnowledgeBase.ALLOWED_EXTENSIONS`. */
  const KbExtensions: set<string> := {".pdf", ".txt", ".docx", ".csv", ".xlsx"}

  /** `sorted(ALLOWED_EXTENSIONS)`. */
  const KbExtensionsInOrder: seq<string> := [".csv", ".docx", ".pdf", ".txt", ".xlsx"]

  /** The default `max_chars` of `get_relevant_context`. */
  const DefaultMaxChars: int := 12000

  function KbRejection(): string {
    "Knowledge base only accepts: " + JoinWith(KbExtensionsInOrder, ", ")
  }

  /** The upload passes the knowledge base's own gate and `validate_file`. */
  predicate Admitted(rawName: string, content: seq<Byte>) {
    && rawName != ""
    && ExtensionOf(rawName) in KbExtensions
    && ValidateFile(rawName, |content|, content) == Pass
  }

  /**
   * The checks `add_document` makes before saving, in order: a name, a knowledge-base
   * type, then `validate_file` on the measured size. The message of the first that
   * fails, or nothing when the upload is admitted.
   */
  function Rejection(rawName: string, content: seq<Byte>): (r: Option<string>)
    ensures r.None? <==> Admitted(rawName, content)
    ensures rawName == "" ==> r == Some("Invalid filename.")
    ensures rawName != "" && ExtensionOf(rawName) !in KbExtensions ==> r == Some(KbRejection())
    ensures rawName != "" && ExtensionOf(rawName) in KbExtensions && ValidateFile(rawName, |content|, content).Fail? ==>
      r == Some(Message(ValidateFile(rawName, |content|, content).error))
  {
    if rawName == "" then Some("Invalid filename.")
    else
      var ext := ExtensionOf(rawName);
      if ext !in KbExtensions then Some(KbRejection())
      else
        var verdict := ValidateFile(rawName, |content|, content);
        if verdict.Fail? then Some(Message(verdict.error)) else None
  }

  /** The scored documents for a query, in ranked order. */
  function Ranked(index: seq<DocEntry>, texts: map<string, string>, query: string): seq<Scored> {
    SortByScore(ScoreAll(index, texts, Keywords(query)))
  }

  /** The context `get_relevant_context(query, max_chars)` returns for the given state. */
  function Context(index: seq<DocEntry>, texts: map<string, string>, query: string, maxChars: int): string {
    if index == [] then "" else Assemble(Ranked(index, texts, query), maxChars)
  }

  class KnowledgeBase {
    /** `index.json`, in insertion order. */
    var index: seq<DocEntry>
    /** The extracted-text artifacts `extracted/<id>.txt`, by document id. */
    var texts: map<string, string>
    /** The stored documents `<id><ext>`, by stored name. */
    var documents: map<string, seq<Byte>>

    /** Opening the knowledge base: an existing index is kept, a missing one starts empty. */
    constructor (persisted: Option<seq<DocEntry>>, storedTexts: map<string, string>, storedDocuments: map<string, seq<Byte>>)
      ensures index == (if persisted.Some? then persisted.value else [])
      ensures texts == storedTexts && documents == storedDocuments
    {
      index := if persisted.Some? then persisted.value else [];
      texts := storedTexts;
      documents := storedDocuments;
    }

    /**
     * `add_document`. `rawName` is the sanitised upload name, `docId` the fresh identifier,
     * `uploadedAt` the timestamp, and `readings` what the reader libraries deliver for the
     * saved file, or the message of the exception they raise.
     */
    method AddDocument(rawName: string, content: seq<Byte>, docId: string, uploadedAt: string,
                       readings: Result<Readings, string>)
      returns (ok: bool, reply: string)
      modifies this
      ensures ok <==> Admitted(rawName, content) && readings.Ok?
      ensures !Admitted(rawName, content) ==> reply == Rejection(rawName, content).value
      ensures !Admitted(rawName, content) ==>
        index == old(index) && texts == old(texts) && documents == old(documents)
      ensures Admitted(rawName, content) && readings.Err? ==>
        && reply == "Failed to extract text: " + readings.error
        && index == old(index) && texts == old(texts)
        && documents == old(documents) - {docId + ExtensionOf(rawName)}
      ensures ok ==>
        var ext := ExtensionOf(rawName);
        var text := ExtractedText(ext, readings.value);
        && reply == docId
        && index == old(index) + [DocEntry(docId, rawName, docId + ext, ext, |content|, |text|, uploadedAt)]
        && texts == old(texts)[docId := text]
        && documents == old(documents)[docId + ext := content]
    {
      var rejection := Rejection(rawName, content);
      if rejection.Some? {
        return false, rejection.value;
      }
      var ext := ExtensionOf(rawName);
      ok, reply := Ingest(rawName, ext, content, docId, uploadedAt, readings);
    }

    /**
     * The part of `add_document` after the checks: save the document as `<id><ext>`,
     * extract its text, cache the text under the id and append the index entry; when
     * extraction fails, delete the saved document again.
     */
    method Ingest(rawName: string, ext: string, content: seq<Byte>, docId: string, uploadedAt: string,
                  readings: Result<Readings, string>)
      returns (ok: bool, reply: string)
      modifies this
      ensures ok <==> readings.Ok?
      ensures readings.Err? ==>
        && reply == "Failed to extract text: " + readings.error
        && index == old(index) && texts == old(texts)
        && documents == old(documents) - {docId + ext}
      ensures ok ==>
        var text := ExtractedText(ext, readings.value);
        && reply == docId
        && index == old(index) + [DocEntry(docId, rawName, docId + ext, ext, |content|, |text|, uploadedAt)]
        && texts == old(texts)[docId := text]
        && documents == old(documents)[docId + ext := content]
    {
      var fileSize := |content|;
      var saveName := docId + ext;
      ghost var before := documents;
      documents := documents[saveName := content];
      if readings.Err? {
        documents := documents - {saveName};
        assert documents == before - {saveName};
        return false, "Failed to extract text: " + readings.error;
      }
      var text := ExtractText(ext, readings.value);
      texts := texts[docId := text];
      var entry := DocEntry(docId, rawName, saveName, ext, fileSize, |text|, uploadedAt);
      index := index + [entry];
      return true, docId;
    }

    /** `list_documents`: the index as stored, in insertion order. */
    method ListDocuments() returns (docs: seq<DocEntry>)
      ensures docs == index
    {
      docs := index;
    }

    /**
     * `remove_document`: when some entry has the id, delete the first such entry's stored
     * document and the id's text artifact (each only if present), drop every entry with
     * the id from the index and report `true`; otherwise change nothing and report `false`.
     */
    method RemoveDocument(docId: string) returns (removed: bool)
      modifies this
      ensures removed <==> HasId(old(index), docId)
      ensures !removed ==> index == old(index) && texts == old(texts) && documents == old(documents)
      ensures removed ==>
        && index == RemoveId(old(index), docId)
        && texts == old(texts) - {docId}
        && documents == old(documents) - {Find(old(index), docId).value.storedName}
    {
      var found := Find(index, docId);
      if found.None? {
        return false;
      }
      var entry := found.value;
      documents := documents - {entry.storedName};
      texts := texts - {docId};
      index := RemoveId(index, docId);
      return true;
    }

    /** The first loop of `get_relevant_context`: score every entry that has its artifact. */
    method ScoreIndex(keywords: set<string>) returns (scored: seq<Scored>)
      ensures scored == ScoreAll(index, texts, keywords)
    {
      scored := [];
      for i := 0 to |index|
        invariant scored == ScoreAll(index[..i], texts, keywords)
      {
        var entry := index[i];
        assert index[..i + 1][..i] == index[..i] && index[..i + 1][i] == entry;
        if entry.id !in texts {
          continue;
        }
        var text := texts[entry.id];
        var textLower := Lower(text);
        var score := Score(keywords, textLower);
        scored := scored + [Scored(entry, text, score)];
      }
      assert index[..|index|] == index;
    }

    /** `get_relevant_context(user_query, max_chars)`. */
    method GetRelevantContext(query: string, maxChars: int) returns (result: string)
      ensures result == Context(index, texts, query, maxChars)
    {
      if index == [] {
        return "";
      }
      var keywords := Keywords(query);
      var scored := ScoreIndex(keywords);
      var ranked := SortByScore(scored);
      result := AssembleRanked(ranked, maxChars);
    }
  }

  /** The second loop of `get_relevant_context`: the budgeted assembly of the ranked sections. */
  method AssembleRanked(ranked: seq<Scored>, maxChars: int) returns (result: string)
    ensures result == Assemble(ranked, maxChars)
  {
    result := "";
    var i := 0;
    while i < |ranked|
      invariant 0 <= i <= |ranked|
      invariant AssembleFrom(ranked[i..], result, maxChars) == Assemble(ranked, maxChars)
    {
      var x := ranked[i];
      assert ranked[i..][0] == x && ranked[i..][1..] == ranked[i + 1..];
      if x.score == 0 {
        i := i + 1;
        continue;
      }
      var section := Section(x);
      if |result| + |section| > maxChars {
        break;
      }
      result := result + section;
      i := i + 1;
    }
  }

  /** Every ranked document is an index entry with its artifact, its text and its score. */
  lemma RankedDocuments(index: seq<DocEntry>, texts: map<string, string>, query: string)
    ensures forall x :: x in Ranked(index, texts, query) <==> x in ScoreAll(index, texts, Keywords(query))
    ensures forall x :: x in Ranked(index, texts, query) ==>
      && x.entry in index && x.entry.id in texts && x.text == texts[x.entry.id]
      && x.score == Score(Keywords(query), Lower(x.text))
  {
    var s := ScoreAll(index, texts, Keywords(query));
    assert forall x :: x in Ranked(index, texts, query) <==> x in multiset(s);
  }

  /**
   * The ranking is by score, highest first, and documents with equal scores stay in
   * index order; any ordering with these two properties, as Python's stable sort
   * produces, is this one.
   */
  lemma RankedIsStableByScore(index: seq<DocEntry>, texts: map<string, string>, query: string, t: seq<Scored>)
    ensures SortedByScoreDesc(Ranked(index, texts, query))
    ensures forall k :: WithScore(Ranked(index, texts, query), k) == WithScore(ScoreAll(index, texts, Keywords(query)), k)
    ensures SortedByScoreDesc(t) && (forall k :: WithScore(t, k) == WithScore(ScoreAll(index, texts, Keywords(query)), k))
      ==> t == Ranked(index, texts, query)
  {
    var s := ScoreAll(index, texts, Keywords(query));
    forall k
      ensures WithScore(Ranked(index, texts, query), k) == WithScore(s, k)
    {
      SortKeepsScoreClasses(s, k);
    }
    if SortedByScoreDesc(t) && forall k :: WithScore(t, k) == WithScore(s, k) {
      StableSortIsSortByScore(s, t);
    }
  }

  /**
   * The context is the longest run of matching documents' sections, in ranked order,
   * that fits within `maxChars`: whole sections only, and none after the first that
   * does not fit.
   */
  lemma ContextIsLongestFit(index: seq<DocEntry>, texts: map<string, string>, query: string, maxChars: int)
    ensures exists m: nat ::
      && LongestFit(Positive(Ranked(index, texts, query)), maxChars, m)
      && Context(index, texts, query, maxChars) == Sections(Positive(Ranked(index, texts, query))[..m])
  {
    AssembleIsLongestFit(Ranked(index, texts, query), maxChars);
  }

  /** The included documents all matched the query and had their artifact. */
  lemma ContextDocumentsMatch(index: seq<DocEntry>, texts: map<string, string>, query: string)
    ensures forall x :: x in Positive(Ranked(index, texts, query)) ==>
      && x.score > 0 && x.entry in index && x.entry.id in texts && x.text == texts[x.entry.id]
      && x.score == Score(Keywords(query), Lower(x.text))
  {
    PositiveMembers(Ranked(index, texts, query));
    RankedDocuments(index, texts, query);
  }

  /** The output never exceeds `maxChars`, and it is empty for a negative budget. */
  lemma ContextWithinBudget(index: seq<DocEntry>, texts: map<string, string>, query: string, maxChars: int)
    ensures maxChars >= 0 ==> |Context(index, texts, query, maxChars)| <= maxChars
    ensures maxChars < 0 ==> Context(index, texts, query, maxChars) == ""
  {
    if index != [] {
      AssembleWithinBudget(Ranked(index, texts, query), maxChars);
    }
  }

  /** With the default budget of `get_relevant_context` the context holds at most 12000 characters. */
  lemma ContextWithinDefaultBudget(index: seq<DocEntry>, texts: map<string, string>, query: string)
    ensures |Context(index, texts, query, DefaultMaxChars)| <= 12000
  {
    ContextWithinBudget(index, texts, query, DefaultMaxChars);
  }

  /** A blank query has no keywords, every score is 0, and the context is empty. */
  lemma BlankQueryGivesNoContext(index: seq<DocEntry>, texts: map<string, string>, query: string, maxChars: int)
    requires IsBlank(query)
    ensures Context(index, texts, query, maxChars) == ""
  {
    var r := Ranked(index, texts, query);
    RankedDocuments(index, texts, query);
    PositiveMembers(r);
    forall x | x in r
      ensures x.score == 0
    {
      BlankQueryScoresZero(query, Lower(x.text));
    }
    if Positive(r) != [] {
      assert Positive(r)[0] in Positive(r);
    }
    AssembleNothingMatches(r, maxChars);
  }

  /** When the best match's section alone is longer than `maxChars`, the context is empty. */
  lemma OversizedBestMatchGivesNoContext(index: seq<DocEntry>, texts: map<string, string>, query: string, maxChars: int)
    requires Positive(Ranked(index, texts, query)) != []
    requires |Section(Positive(Ranked(index, texts, query))[0])| > maxChars
    ensures Context(index, texts, query, maxChars) == ""
  {
    AssembleFirstTooLong(Ranked(index, texts, query), maxChars);
  }

  /**
   * After `remove_document(docId)` the id is gone from the listing and no document with
   * that id takes part in retrieval, whatever the remaining artifacts hold.
   */
  lemma RemovedDocumentNeverContributes(index: seq<DocEntry>, texts: map<string, string>, docId: string, query: string)
    ensures !HasId(RemoveId(index, docId), docId)
    ensures forall x :: x in Ranked(RemoveId(index, docId), texts, query) ==> x.entry.id != docId
  {
    var rest := RemoveId(index, docId);
    RemoveIdMembers(index, docId);
    assert !HasId(rest, docId) by {
      assert forall i :: 0 <= i < |rest| ==> rest[i] in rest;
    }
    RankedDocuments(rest, texts, query);
  }

  /** Every extension the knowledge base accepts is one that `validate_file` accepts. */
  lemma KbExtensionsAreAllowed()
    ensures KbExtensions <= AllowedExtensions
    ensures forall e :: e in KbExtensionsInOrder <==> e in KbExtensions
    ensures StrictlySorted(KbExtensionsInOrder)
  {
    LexLessAt(".csv", ".docx", 1);
    LexLessAt(".docx", ".pdf", 1);
    LexLessAt(".pdf", ".txt", 1);
    LexLessAt(".txt", ".xlsx", 1);
  }

  /**
   * An admitted document is non-empty, within the size cap, and, apart from plain text
   * and CSV, starts with the signature of its type.
   */
  lemma AdmittedDocumentShape(rawName: string, content: seq<Byte>)
    requires Admitted(rawName, content)
    ensures 0 < |content| <= MaxFileSize
    ensures ExtensionOf(rawName) !in {".txt", ".csv"} ==> MagicBytes[ExtensionOf(rawName)] <= content
  {
    if ExtensionOf(rawName) !in {".txt", ".csv"} {
      AcceptedStartsWithSignature(rawName, |content|, content);
    }
  }
}
