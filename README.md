# Secure chat: knowledge base, upload validation, file store and message store

A Dafny model of the core of a small Flask chat server and proofs about it. The server keeps chat messages and stores
uploaded files. It also keeps a knowledge base of company documents. For each user question it retrieves the
documents' text as context for an AI assistant. The model covers five parts:

- **Retrieval** (`KnowledgeBase.get_relevant_context`):
  - The query is lower-cased and split on whitespace. Stop words are removed, but when nothing else is left all the
    tokens are kept.
  - A document's score is the number of distinct keywords that occur as substrings of its lower-cased text.
  - The documents are sorted by score, highest first. The sort is stable, so equal scores stay in index order.
  - The sections of the documents that scored above zero are appended until the next one would exceed `max_chars`.
- **Ingestion, listing and removal** (`add_document`, `list_documents`, `remove_document`):
  - The index, the extracted-text artifacts and the stored documents are an in-memory `seq` and two `map`s, fields of
    a class.
  - Text extraction is modelled as the filter-and-join over the parts the reader libraries deliver.
- **Upload validation** (`SecurityUtils.validate_file`): an ordered chain of checks.
  1. A filename is present.
  2. The extension is on the allow-list. The extension comes from `os.path.splitext` and is lower-cased.
  3. The size is within the 5 MB cap.
  4. The file is not empty.
  5. The content starts with the magic-byte signature of its type.

  Each failure has its own exact error message.
- **Upload storage** (`FileHandler.save_file`, `get_file_path`). A validated upload is stored under its own name when
  that name is free. Otherwise it is stored as `name_k.ext` with the smallest free `k ≥ 1`.
- **Message store** (`ChatManager`):
  - Messages are only ever appended.
  - `get_messages(limit)` is Python's `messages[-limit:]`. So `limit = 0` returns every message, and a negative limit
    drops the first `|limit|` messages.

Modules:

| module | contents |
|---|---|
| `Wrappers` | `Option`, `Result`, `Outcome` |
| `Text` | `str.isspace`, `lower`, `split()`, `join`, substring `in`, `str(n)` for naturals |
| `Paths` | `os.path.splitext` and `os.path.join` for two components |
| `Security` | `validate_file` and its constants |
| `DocIndex` | index entries, lookup and removal by id |
| `Scoring` | stop words, keyword set, score, the scoring pass |
| `Ranking` | the stable descending sort by score |
| `Assembly` | the budgeted assembly of sections |
| `Extraction` | `extract_text` |
| `KnowledgeBase` | the `KnowledgeBase` class |
| `FileHandling` | the de-duplication loop and the `FileHandler` class |
| `Chat` | the `ChatManager` class |

The source's loops are methods with loop invariants, each proved equal to a specification function:

- `KnowledgeBase.KnowledgeBase.ScoreIndex` and `KnowledgeBase.AssembleRanked` are the two loops of `get_relevant_context`.
- `Extraction.ExtractText` is the page and worksheet loops of `extract_text`.
- `FileHandling.ChooseName` is the de-duplication `while` loop.

The properties are proved about those functions. The sort in the source is a library call (`list.sort`). It is modelled
by a functional insertion sort, `Ranking.SortByScore`. That sort is proved sorted and a permutation, and proved to keep
every score class in input order. Any ordering with those properties is proved to be that same list
(`Ranking.StableSortIsSortByScore`).

Keywords are whitespace-separated tokens, and `split()` does not strip punctuation. So the query "How do I reset my
password?" yields the keywords `reset` and `password?`, question mark included, and a document mentioning only
"password" does not match the second one.

## Model

| member | source | states |
|---|---|---|
| Text.Lower | knowledge_base.py:152 | `lower()` keeps the length and lower-cases each character in place |
| Text.IsSpace | knowledge_base.py:152 | the whitespace set of `str.isspace`, which `split()` splits on; its tokens avoid it by `Text.Split` and `Text.WordLength` |
| Text.IsBlank | knowledge_base.py:127 | the `strip()` test: the string holds only whitespace; `split()` yields no token exactly for such strings (`Scoring.SplitEmptyIffBlank`) |
| Text.LowerIdempotent | knowledge_base.py:152-165 | lower-casing twice is the same as lower-casing once |
| Text.DropSpaces | knowledge_base.py:152 | drops exactly the leading whitespace: the result is a suffix that is empty or starts with a non-space |
| Text.WordLength | knowledge_base.py:152 | the length of the leading run of non-whitespace characters, which ends at a whitespace character or the end |
| Text.Split | knowledge_base.py:152 | `split()` yields only non-empty tokens without whitespace |
| Text.SplitWord | knowledge_base.py:152 | a word followed by whitespace or nothing is split off as the first token, and splitting goes on with the rest |
| Text.SplitJoinRoundTrip | knowledge_base.py:152 | splitting tokens joined by single spaces gives back the tokens |
| Text.JoinWith | knowledge_base.py:111 | `sep.join(parts)`; a join of non-empty parts is empty exactly when there are none (`Extraction.JoinWithEmptyIff`), and splitting a space join gives the parts back (`Text.SplitJoinRoundTrip`) |
| Text.Contains | knowledge_base.py:165 | `kw in text`, characterised as an occurrence at some position by `Text.ContainsIffOccurs` |
| Text.ContainsIffOccurs | knowledge_base.py:165 | `kw in text` holds exactly when `kw` occurs at some position of `text` |
| Text.DecimalString | file_handler.py:47 | `str(n)` is a non-empty string of decimal digits |
| Text.DecimalRoundTrip | file_handler.py:47 | parsing `str(n)` gives back `n` |
| Text.DecimalInjective | file_handler.py:47 | different counters print differently |
| Text.LexLessAt | security.py:55 | two strings that agree up to a position and differ there are ordered by that character, as `sorted` orders them |
| Text.LexLess | security.py:55 | Python's `<` on strings: code-point order at the first difference, a proper prefix first; characterised by `Text.LexLessAt` |
| Text.StrictlySorted | security.py:55 | the order `sorted` gives a set of strings, each strictly before the next; the two message lists have it (`Security.AllowedInOrderIsSorted`, `KnowledgeBase.KbExtensionsAreAllowed`) |
| Paths.LastIndexOf | security.py:52 | the last position of a character, or -1 when it does not occur |
| Paths.BaseName | security.py:52 | the final path component: a suffix of the path with no `/` |
| Paths.BaseNameIsLastComponent | security.py:52 | the base name reaches back to the last `/`, or to the start of the path when there is none, so with the suffix property of `Paths.BaseName` it is exactly the final component |
| Paths.SplitExt | security.py:52 | `os.path.splitext`: root + extension is the path; a non-empty extension is `.` and no further dot or slash, and its stem's base name is not all dots; the extension is empty exactly when every dot of the base name is leading |
| Paths.JoinPath | file_handler.py:62 | `os.path.join(dir, name)`: `name` itself when absolute; otherwise `dir + name` when `dir` is empty or ends in `/`, and `dir + "/" + name` when it does not |
| Paths.BaseNameOfJoin | file_handler.py:62 | the base name of a file name joined under a directory is that file name |
| Security.ValidateFile | security.py:49-73 | passes exactly when every check passes, and otherwise fails with the error of the first failing check in source order, with the offending extension or size |
| Security.AllowedExtensions | security.py:20 | the nine allowed upload extensions; `Security.ValidateFile` rejects every other one as not allowed |
| Security.AllowedInOrder | security.py:55 | `sorted(ALLOWED_EXTENSIONS)`: exactly the allow-list (`Security.AllowedInOrderIsAllowList`), strictly sorted (`Security.AllowedInOrderIsSorted`) |
| Security.MaxFileSize | security.py:21 | 5 MB; a file of exactly that size passes and one byte more is too large (`Security.SizeCapBoundary`) |
| Security.MagicBytes | security.py:24-32 | the signatures of the seven signed types; `.txt` and `.csv` have none (`Security.TextFormatsUnsigned`), and a match means the signature is a prefix of the content (`Security.SignatureIsPrefix`) |
| Security.Message | security.py:50-71 | the exact text of each rejection, in the order of the checks; the one for a disallowed type lists the allowed types in sorted order (`Security.AllowedInOrderIsSorted`) |
| Security.ExtensionOf | security.py:52 | `os.path.splitext(filename)[1].lower()`; its shape is given by `Paths.SplitExt` and `Text.Lower` |
| Security.Header | security.py:68 | `read(n)`: the first `n` bytes, or all of them when there are fewer |
| Security.SignatureMatches | security.py:66-71 | a type without a signature always passes; a signed type passes exactly when its signature is a prefix of the content (`Security.SignatureIsPrefix`) |
| Security.SignatureIsPrefix | security.py:66-71 | the signature check compares the first bytes of the content, so it holds exactly when the signature is a prefix of the content |
| Security.SizeCapBoundary | security.py:58-63 | exactly 5 MB is accepted (subject to the signature) and one byte more is rejected as too large |
| Security.TextFormatsAreNotSniffed | security.py:24-32 | `.txt` and `.csv` have no signature, so any non-empty content within the cap passes |
| Security.TextFormatsUnsigned | security.py:20-32 | `.txt` and `.csv` are allowed types that have no signature |
| Security.AcceptedStartsWithSignature | security.py:65-73 | an accepted file with a signed type starts with that type's signature |
| Security.AllowedInOrderIsAllowList | security.py:20-55 | the list in the error message holds exactly the allowed extensions |
| Security.AllowedInOrderIsSorted | security.py:20-55 | the list in the error message is strictly sorted, as `sorted` orders the allow-list, so each type appears once |
| DocIndex.Find | knowledge_base.py:190-192 | finds nothing exactly when no entry has the id, and otherwise finds the first entry with it |
| DocIndex.RemoveId | knowledge_base.py:203 | the list comprehension that drops the entries with the id; it keeps exactly the others (`DocIndex.RemoveIdMembers`) in order (`DocIndex.RemoveIdConcat`) |
| DocIndex.RemoveIdMembers | knowledge_base.py:203 | after removal the index holds exactly the earlier entries with a different id |
| DocIndex.RemoveIdConcat | knowledge_base.py:203 | removal distributes over concatenation, keeping order |
| DocIndex.RemoveAbsentId | knowledge_base.py:203 | removing an id no entry has leaves the index unchanged |
| DocIndex.UniqueIdElsewhereAbsent | knowledge_base.py:61 | in an index with unique ids, an entry's id occurs nowhere before or after it |
| DocIndex.RemoveUniqueId | knowledge_base.py:203 | with unique ids, removal deletes exactly the one entry and keeps the rest in order |
| DocIndex.RemoveSplit | knowledge_base.py:203 | removing an entry whose id occurs nowhere else leaves the entries around it |
| DocIndex.AppendFreshId | knowledge_base.py:61-88 | appending an entry with a fresh id keeps the ids unique |
| Scoring.SplitEmptyIffBlank | knowledge_base.py:152-154 | the query has no tokens exactly when it is blank |
| Scoring.Tokens | knowledge_base.py:151-154 | `set(user_query.lower().split())`; each token is non-empty, whitespace-free and lower case (`Scoring.TokenIsLowerCase`) |
| Scoring.StopWords | knowledge_base.py:133-137 | the thirty stop words, removed from the query tokens unless nothing would remain (`Scoring.KeywordsShape`) |
| Scoring.Keywords | knowledge_base.py:151-154 | the tokens minus the stop words, or all tokens when none survives (`Scoring.KeywordsShape`); empty exactly for a blank query (`Scoring.KeywordsEmptyIffBlank`) |
| Scoring.Score | knowledge_base.py:165 | the number of distinct keywords that occur in the lower-cased text; bounded and characterised in `Scoring.ScoreBounds` |
| Scoring.KeywordsEmptyIffBlank | knowledge_base.py:152-154 | the keyword set is empty exactly when the query is blank |
| Scoring.KeywordsShape | knowledge_base.py:152-154 | the keywords are the tokens minus the stop words, or all tokens when every token is a stop word; each is non-empty, whitespace-free and lower case |
| Scoring.SplitKeepsLower | knowledge_base.py:152 | splitting a lower-cased string gives tokens that are lower case |
| Scoring.TokenIsLowerCase | knowledge_base.py:152 | every token is non-empty, has no whitespace and is lower case |
| Scoring.ScoreBounds | knowledge_base.py:165 | the score is at most the number of keywords, 0 exactly when no keyword occurs, and the maximum exactly when all occur |
| Scoring.EmptyTextScoresZero | knowledge_base.py:165 | an empty text scores 0 for every query |
| Scoring.BlankQueryScoresZero | knowledge_base.py:152-154 | a blank query scores 0 against every text |
| Scoring.ScoreAll | knowledge_base.py:157-166 | each scored item is an index entry with its artifact text and its score; every entry with an artifact is scored; entries without one are skipped |
| Scoring.ScoreAllConcat | knowledge_base.py:157-166 | the scoring pass keeps index order |
| Ranking.Insert | knowledge_base.py:169 | insertion adds exactly one element |
| Ranking.InsertSorted | knowledge_base.py:169 | insertion keeps a list sorted by descending score |
| Ranking.SortByScore | knowledge_base.py:169 | the sort is a permutation of its input, sorted by descending score |
| Ranking.InsertKeepsScoreClasses | knowledge_base.py:169 | insertion puts the new element first among equal scores |
| Ranking.SortKeepsScoreClasses | knowledge_base.py:169 | the sort is stable: the items of each score stay in input order |
| Ranking.WithScoreMembers | knowledge_base.py:169 | a score class holds exactly the items with that score |
| Ranking.StableOrderIsUnique | knowledge_base.py:169 | two lists sorted by descending score with the same score classes are equal |
| Ranking.StableSortIsSortByScore | knowledge_base.py:169 | every stable descending sort of the input gives this ranking |
| Assembly.Section | knowledge_base.py:176 | a section is 21 characters of framing plus the document's name and text |
| Assembly.Sections | knowledge_base.py:176-179 | the sections of a list concatenated in order; it distributes over concatenation (`Assembly.SectionsConcat`) and grows with the list (`Assembly.SectionsGrow`) |
| Assembly.Positive | knowledge_base.py:174-175 | the candidates that scored above 0, in order; exactly those items (`Assembly.PositiveMembers`) |
| Assembly.AssembleFrom | knowledge_base.py:172-181 | the output loop from a partial output; it appends the first `m` positive sections and stops where the next does not fit (`Assembly.AssembleFromStops`) |
| Assembly.Assemble | knowledge_base.py:171-181 | the output loop from the empty output; the longest fitting run of positive sections (`Assembly.AssembleIsLongestFit`) within budget (`Assembly.AssembleWithinBudget`) |
| Assembly.SectionsConcat | knowledge_base.py:179 | appending sections one after another concatenates them |
| Assembly.SectionsGrow | knowledge_base.py:179 | a longer run of sections is never shorter |
| Assembly.AssembleFromStops | knowledge_base.py:172-181 | the walk from a partial output appends the sections of the first `m` positive documents and stops where the next one does not fit |
| Assembly.AssembleIsLongestFit | knowledge_base.py:172-181 | the output is the sections of the first `m` positively scored documents, where `m` is the longest run that fits the budget |
| Assembly.AssembleWithinBudget | knowledge_base.py:177-179 | the output never exceeds `max_chars`, and it is empty for a negative budget |
| Assembly.AssembleNothingMatches | knowledge_base.py:174-175 | with no positive score the output is empty |
| Assembly.AssembleFirstTooLong | knowledge_base.py:177-178 | when the best section alone exceeds the budget the output is empty |
| Assembly.PositiveMembers | knowledge_base.py:174-175 | the included candidates are exactly the items with a positive score |
| Extraction.ExtractText | knowledge_base.py:93-131 | the page and worksheet loops compute the extracted text of the file defined by extension |
| Extraction.ExtractedText | knowledge_base.py:98-131 | the text per extension: the decoded file for `.txt` and `.csv`, the joined non-empty pages or paragraphs for `.pdf` and `.docx`, the workbook lines for `.xlsx`, and empty otherwise (`Extraction.UnknownExtensionGivesEmptyText`); computed by `Extraction.ExtractText` |
| Extraction.NonEmpty | knowledge_base.py:107-116 | the non-empty parts, in order: exactly the non-empty ones (`Extraction.NonEmptyMembers`), in order (`Extraction.NonEmptyConcat`) |
| Extraction.JoinLines | knowledge_base.py:111 | `"\n".join(parts)`, used at knowledge_base.py:111, 116 and 129; a join of the non-empty parts is empty exactly when every part is empty (`Extraction.JoinedNonEmptyIsEmptyIff`) |
| Extraction.CellText | knowledge_base.py:126 | `str(cell)` for a present cell and `""` for `None`; joined by tabs in `Extraction.RowText` |
| Extraction.SheetHeader | knowledge_base.py:124 | the line `--- Sheet: <name> ---` that opens each sheet (`Extraction.WorkbookLinesSingle`) |
| Extraction.RowText | knowledge_base.py:126 | the cells of a row joined by tabs, an empty cell as the empty string |
| Extraction.RowLines | knowledge_base.py:125-128 | the row lines that are not blank, in row order |
| Extraction.WorkbookLines | knowledge_base.py:122-128 | for each sheet in order, its header line and then its non-blank row lines; computed by the loops of `Extraction.ExtractText` |
| Extraction.RowLinesMembers | knowledge_base.py:125-128 | the kept row lines are exactly the joined rows that are not blank |
| Extraction.RowLinesConcat | knowledge_base.py:125-128 | the row lines keep row order: those of consecutive rows follow one another |
| Extraction.WorkbookLinesConcat | knowledge_base.py:122-128 | the lines keep sheet order: those of consecutive sheets follow one another |
| Extraction.WorkbookLinesSingle | knowledge_base.py:122-128 | one sheet gives its header line followed by its non-blank row lines |
| Extraction.NonEmptyConcat | knowledge_base.py:107-111 | filtering out empty parts keeps order |
| Extraction.NonEmptyMembers | knowledge_base.py:107-116 | the joined parts are exactly the non-empty ones |
| Extraction.EmptyPartIsSkipped | knowledge_base.py:109-110 | an empty page or paragraph contributes nothing, not even a line break |
| Extraction.JoinWithEmptyIff | knowledge_base.py:111 | a join of non-empty parts is empty exactly when there are no parts |
| Extraction.JoinedNonEmptyIsEmptyIff | knowledge_base.py:107-116 | a PDF or Word text is empty exactly when every part is empty |
| Extraction.PdfSkipsUnreadablePage | knowledge_base.py:107-111 | three readable pages around one without text give the three texts on three lines |
| Extraction.UnknownExtensionGivesEmptyText | knowledge_base.py:131 | any other extension gives the empty text |
| KnowledgeBase.KnowledgeBase.constructor | knowledge_base.py:23-27 | an existing index is kept and a missing one starts empty |
| KnowledgeBase.KbExtensions | knowledge_base.py:21 | the five knowledge-base types, all of them allowed uploads (`KnowledgeBase.KbExtensionsAreAllowed`) |
| KnowledgeBase.KbExtensionsInOrder | knowledge_base.py:48 | `sorted(ALLOWED_EXTENSIONS)`: exactly the knowledge-base types, strictly sorted (`KnowledgeBase.KbExtensionsAreAllowed`) |
| KnowledgeBase.DefaultMaxChars | knowledge_base.py:139 | the default `max_chars=12000`, which bounds the default context (`KnowledgeBase.ContextWithinDefaultBudget`) |
| KnowledgeBase.Rejection | knowledge_base.py:42-58 | no rejection exactly when the document is admitted; otherwise "Invalid filename." for an empty name, the knowledge-base type list for another extension, and the validation error for a failed check, in that order |
| KnowledgeBase.KbRejection | knowledge_base.py:48-49 | the message listing the knowledge-base types in sorted order (`KnowledgeBase.KbExtensionsAreAllowed`) |
| KnowledgeBase.KnowledgeBase.AddDocument | knowledge_base.py:37-91 | succeeds exactly when the name is non-empty, the extension is a knowledge-base type, validation passes and extraction succeeds; otherwise returns the first failing check's message. On a rejected file nothing changes; on an extraction error the saved document is removed again; on success the text is cached under the id and one entry with the exact metadata is appended |
| KnowledgeBase.KnowledgeBase.Ingest | knowledge_base.py:60-91 | stores the document, and then either removes it again and reports the extraction error, or records the text and appends the index entry and returns the id |
| KnowledgeBase.KnowledgeBase.ListDocuments | knowledge_base.py:183-185 | the whole index, in insertion order |
| KnowledgeBase.KnowledgeBase.RemoveDocument | knowledge_base.py:187-205 | reports `true` exactly when some entry has the id; then deletes the first such entry's stored document and the id's text, and drops every entry with the id; otherwise nothing changes |
| KnowledgeBase.KnowledgeBase.ScoreIndex | knowledge_base.py:156-166 | the scoring loop computes the scoring pass over the index |
| KnowledgeBase.KnowledgeBase.GetRelevantContext | knowledge_base.py:139-181 | the result is the empty string for an empty index and otherwise the budgeted assembly of the stably ranked, scored documents |
| KnowledgeBase.AssembleRanked | knowledge_base.py:171-181 | the loop with `continue` and `break` computes the budgeted assembly |
| KnowledgeBase.RankedDocuments | knowledge_base.py:157-169 | the ranked items are exactly the scored items, each an index entry with its artifact text and its score |
| KnowledgeBase.Ranked | knowledge_base.py:157-169 | the scored index sorted by score: a permutation of the scored entries (`KnowledgeBase.RankedDocuments`) in the unique stable descending order (`KnowledgeBase.RankedIsStableByScore`) |
| KnowledgeBase.RankedIsStableByScore | knowledge_base.py:169 | the ranking is by descending score with ties in index order, and any ordering with these properties is the ranking, so identical state gives identical output |
| KnowledgeBase.ContextIsLongestFit | knowledge_base.py:147-181 | the context is the longest run of whole sections of matching documents, in ranked order, that fits `max_chars` |
| KnowledgeBase.Context | knowledge_base.py:139-181 | the context for a query: empty for an empty index, otherwise the assembly of the ranked documents; characterised by `KnowledgeBase.ContextIsLongestFit` and computed by `KnowledgeBase.KnowledgeBase.GetRelevantContext` |
| KnowledgeBase.ContextDocumentsMatch | knowledge_base.py:159-175 | every included document has a positive score, is in the index and has its artifact |
| KnowledgeBase.ContextWithinBudget | knowledge_base.py:177-179 | the context never exceeds `max_chars` |
| KnowledgeBase.ContextWithinDefaultBudget | knowledge_base.py:139 | with the default `max_chars=12000` the context holds at most 12000 characters |
| KnowledgeBase.BlankQueryGivesNoContext | knowledge_base.py:152-175 | a blank query gives the empty context |
| KnowledgeBase.OversizedBestMatchGivesNoContext | knowledge_base.py:177-178 | when the best match's section alone is too long the context is empty |
| KnowledgeBase.RemovedDocumentNeverContributes | knowledge_base.py:187-205 | after removal the id is not listed and no document with it is ranked |
| KnowledgeBase.KbExtensionsAreAllowed | knowledge_base.py:21-48 | the knowledge-base types are a subset of the upload allow-list, and its message lists them in sorted order |
| KnowledgeBase.AdmittedDocumentShape | knowledge_base.py:43-58 | an admitted document is non-empty, within the cap, and starts with its type's signature unless it is text or CSV |
| FileHandling.Numbered | file_handler.py:46-47 | `f"{name}_{counter}{ext}"` from the original name; longer than it (`FileHandling.NumberedIsLonger`) and injective in the counter (`FileHandling.NumberedInjective`) |
| FileHandling.NumberedIsLonger | file_handler.py:46-47 | a numbered candidate is longer than the name, so it never equals it |
| FileHandling.NumberedInjective | file_handler.py:46-47 | different counters give different candidates |
| FileHandling.TriedStep | file_handler.py:44-49 | each round of the loop tries a name not tried before; this is the termination argument |
| FileHandling.LoopStep | file_handler.py:44-49 | a round that finds its candidate taken moves to the next numbered candidate, and the set of untried taken names shrinks |
| FileHandling.StopIsChosen | file_handler.py:45-52 | when the loop stops, the name it holds is free and is the name itself or the numbered name with the smallest free counter |
| FileHandling.ChooseName | file_handler.py:41-52 | the chosen name is not taken; it is the name itself when free, and otherwise `stem_k + ext` for the smallest free `k ≥ 1`, rebuilt from the original name each time |
| FileHandling.FileHandler.constructor | file_handler.py:15-16 | the handler starts with the files already in the directory |
| FileHandling.FileHandler.FilePath | file_handler.py:54-65 | a path exactly when the sanitised name is non-empty and names a stored file, and then the joined path |
| FileHandling.FileHandler.SaveFile | file_handler.py:18-52 | succeeds exactly when the name is non-empty and validation passes; on failure reports the error and stores nothing; on success stores the content under a name not used before, which is then found by `get_file_path` |
| Chat.Recent | chat.py:50 | `messages[-limit:]`: always a suffix; the last `min(limit, n)` messages for a positive limit, all of them for 0, and everything after the first `min(-limit, n)` for a negative limit |
| Chat.DefaultLimit | chat.py:46 | the default `limit=50`, which keeps the last fifty messages (`Chat.DefaultLimitKeepsLastFifty`) |
| Chat.RecentAfterAppend | chat.py:40-50 | after an append, the most recent `limit` messages are the previous `limit - 1` followed by the new one |
| Chat.DefaultLimitKeepsLastFifty | chat.py:46-50 | with the default `limit=50` the result is the last 50 messages, or all of them when there are fewer |
| Chat.ChatManager.constructor | chat.py:14-21 | the store starts with the saved messages, or empty |
| Chat.ChatManager.AddMessage | chat.py:31-44 | appends exactly the new message at the end and leaves the earlier ones unchanged; it is then the single most recent message |
| Chat.ChatManager.GetMessages | chat.py:46-50 | reads the store without changing it, with the slice semantics of `Chat.Recent` |

## Left out

- File I/O is replaced by in-memory state: the JSON index and message files, the directories, `os.path.exists`, `os.remove`, `os.path.isfile` and `file_storage.save`. The upload directory is the map of its regular files. Subdirectories, which `os.path.exists` would also see, are not modelled.
- The extracted-text artifact is modelled as exactly the text extraction produced. The source writes it and reads it back in text mode (knowledge_base.py:74-75, 162-163), and Python's universal-newline reading turns `"\r\n"` and `"\r"` into `"\n"`. So for a text containing carriage returns, the source's section can be shorter than the model's and may fit a budget that the model's section exceeds. `text_length` counts the text before the write, as in the model, and scores are unaffected because keywords contain no whitespace.
- The stream `seek`/`tell` size measurement is left out. The size is the length of the content.
- `werkzeug.utils.secure_filename` is a foreign call. The model receives the sanitised name as its input.
- `uuid.uuid4` and `datetime.now` are nondeterministic. The document id, message id and timestamps are inputs.
- The reader libraries (PyPDF2, python-docx, openpyxl) and text decoding with `errors="replace"` are foreign code. What they deliver is an input, and any exception they raise is the error text of `Result.Err`.
- The `threading.Lock` around the message store exists only for concurrency. The operations are atomic here.
- `SecurityUtils.sanitize_message` is a wrapper around the bleach library, so it is left out.
- The AI client, the Flask routes and the configuration loading are outside the modelled core. The only exception is the default `limit` of 50 from the request (server.py:16), which is also the default of `get_messages` (chat.py:46) and appears as `Chat.DefaultLimit`.
- Text.Lower: lower-cases ASCII letters only, because Python's full Unicode case mapping is not modelled.
- Paths.JoinPath: models two components only, which is all the core uses.
