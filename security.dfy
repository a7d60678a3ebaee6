/**
 * `SecurityUtils.validate_file`: the upload gate shared by file uploads and the
 * knowledge base. An ordered chain of checks with early return over the file name,
 * the measured size and the first bytes of the content.
 */
module Security {
  import opened Wrappers
  import opened Text
  import opened Paths

  type Byte = b: int | 0 <= b < 256

  const AllowedExtensions: set<string> :=
    {".pdf", ".png", ".jpg", ".jpeg", ".txt", ".docx", ".gif", ".csv", ".xlsx"}

  /** `sorted(ALLOWED_EXTENSIONS)`, the order in which the error message lists them. */
  const AllowedInOrder: seq<string> :=
    [".csv", ".docx", ".gif", ".jpeg", ".jpg", ".pdf", ".png", ".txt", ".xlsx"]

  const MaxFileSize: nat := 5 * 1024 * 1024

  /** Content signatures; extensions without an entry (".txt", ".csv") are not sniffed. */
  const MagicBytes: map<string, seq<Byte>> := map[
    ".png" := [0x89, 0x50, 0x4E, 0x47],   // "\x89PNG"
    ".jpg" := [0xFF, 0xD8, 0xFF],
    ".jpeg" := [0xFF, 0xD8, 0xFF],
    ".gif" := [0x47, 0x49, 0x46, 0x38],   // "GIF8"
    ".pdf" := [0x25, 0x50, 0x44, 0x46],   // "%PDF"
    ".xlsx" := [0x50, 0x4B],              // "PK": a ZIP archive
    ".docx" := [0x50, 0x4B]
  ]

  datatype UploadError =
    | NoFilename
    | TypeNotAllowed(ext: string)
    | TooLarge(size: nat)
    | EmptyFile
    | ContentMismatch(ext: string)

  /** The user-facing message the source returns for each rejection. */
  function Message(e: UploadError): string {
    match e
    case NoFilename => "No filename provided."
    case TypeNotAllowed(ext) =>
      "File type '" + ext + "' is not allowed. Accepted types: " + JoinWith(AllowedInOrder, ", ")
    case TooLarge(size) =>
      "File too large (" + DecimalString(size / 1024) + "KB). Maximum size is "
      + DecimalString(MaxFileSize / (1024 * 1024)) + "MB."
    case EmptyFile => "File is empty."
    case ContentMismatch(ext) =>
      "File content does not match its '" + ext + "' extension. Possible disguised file."
  }

  /** `os.path.splitext(filename)[1].lower()`. */
  function ExtensionOf(filename: string): string {
    Lower(SplitExt(filename).1)
  }

  /** `file_stream.read(n)`: at most the first `n` bytes. */
  function Header(content: seq<Byte>, n: nat): seq<Byte> {
    if |content| <= n then content else content[..n]
  }

  /** The content passes the signature check for `ext`. */
  predicate SignatureMatches(ext: string, content: seq<Byte>) {
    ext !in MagicBytes || Header(content, |MagicBytes[ext]|) == MagicBytes[ext]
  }

  /** Every check passes. */
  predicate Acceptable(filename: string, fileSize: nat, content: seq<Byte>) {
    && filename != ""
    && ExtensionOf(filename) in AllowedExtensions
    && 0 < fileSize <= MaxFileSize
    && SignatureMatches(ExtensionOf(filename), content)
  }

  /**
   * `validate_file(filename, file_size, file_stream)`, with the stream given by its
   * bytes. The file is accepted exactly when every check passes; otherwise the error
   * is that of the first failing check in the order name, type, size cap, emptiness,
   * signature.
   */
  function ValidateFile(filename: string, fileSize: nat, content: seq<Byte>): (r: Outcome<UploadError>)
    ensures r == Pass <==> Acceptable(filename, fileSize, content)
    ensures r == Fail(NoFilename) <==> filename == ""
    ensures r.Fail? && r.error.TypeNotAllowed? <==>
      filename != "" && ExtensionOf(filename) !in AllowedExtensions
    ensures r.Fail? && r.error.TooLarge? <==>
      filename != "" && ExtensionOf(filename) in AllowedExtensions && fileSize > MaxFileSize
    ensures r == Fail(EmptyFile) <==>
      filename != "" && ExtensionOf(filename) in AllowedExtensions && fileSize == 0
    ensures r.Fail? && r.error.ContentMismatch? <==>
      && filename != "" && ExtensionOf(filename) in AllowedExtensions && 0 < fileSize <= MaxFileSize
      && !SignatureMatches(ExtensionOf(filename), content)
    ensures r.Fail? && (r.error.TypeNotAllowed? || r.error.ContentMismatch?) ==> r.error.ext == ExtensionOf(filename)
    ensures r.Fail? && r.error.TooLarge? ==> r.error.size == fileSize
  {
    if filename == "" then Fail(NoFilename)
    else
      var ext := ExtensionOf(filename);
      if ext !in AllowedExtensions then Fail(TypeNotAllowed(ext))
      else if fileSize > MaxFileSize then Fail(TooLarge(fileSize))
      else if fileSize == 0 then Fail(EmptyFile)
      else if !SignatureMatches(ext, content) then Fail(ContentMismatch(ext))
      else Pass
  }

  /** The signature check reads as a prefix test: the content starts with the signature. */
  lemma SignatureIsPrefix(ext: string, content: seq<Byte>)
    requires ext in MagicBytes
    ensures SignatureMatches(ext, content) <==> MagicBytes[ext] <= content
  {
    var m := MagicBytes[ext];
    if |content| < |m| {
      assert Header(content, |m|) == content;
      assert |content| != |m|;
    }
  }

  /** A file of exactly the maximum size passes the size check; one byte more does not. */
  lemma SizeCapBoundary(filename: string, content: seq<Byte>)
    requires filename != "" && ExtensionOf(filename) in AllowedExtensions
    ensures ValidateFile(filename, MaxFileSize, content) == Pass <==> SignatureMatches(ExtensionOf(filename), content)
    ensures ValidateFile(filename, MaxFileSize + 1, content) == Fail(TooLarge(MaxFileSize + 1))
  {
  }

  /** Plain-text formats are allowed and have no signature. */
  lemma TextFormatsUnsigned()
    ensures ".txt" in AllowedExtensions && ".csv" in AllowedExtensions
    ensures ".txt" !in MagicBytes && ".csv" !in MagicBytes
  {
    // Every signed extension differs from ".txt" and ".csv" in its second character.
    assert ".txt"[1] == 't' && ".csv"[1] == 'c';
    assert ".png"[1] == 'p' && ".jpg"[1] == 'j' && ".jpeg"[1] == 'j' && ".gif"[1] == 'g';
    assert ".pdf"[1] == 'p' && ".xlsx"[1] == 'x' && ".docx"[1] == 'd';
  }

  /** Plain-text formats carry no signature: any non-empty content within the cap passes. */
  lemma TextFormatsAreNotSniffed(filename: string, fileSize: nat, content: seq<Byte>)
    requires filename != "" && ExtensionOf(filename) in {".txt", ".csv"}
    requires 0 < fileSize <= MaxFileSize
    ensures ValidateFile(filename, fileSize, content) == Pass
  {
    TextFormatsUnsigned();
    assert Acceptable(filename, fileSize, content);
  }

  /** An accepted file whose type has a signature begins with that signature. */
  lemma AcceptedStartsWithSignature(filename: string, fileSize: nat, content: seq<Byte>)
    requires ValidateFile(filename, fileSize, content) == Pass
    requires ExtensionOf(filename) in MagicBytes
    ensures MagicBytes[ExtensionOf(filename)] <= content
  {
    SignatureIsPrefix(ExtensionOf(filename), content);
  }

  /** The order used in the type error lists exactly the allowed extensions, sorted. */
  lemma AllowedInOrderIsAllowList()
    ensures forall e :: e in AllowedInOrder <==> e in AllowedExtensions
  {
  }

  lemma AllowedInOrderIsSorted()
    ensures StrictlySorted(AllowedInOrder)
  {
    LexLessAt(".csv", ".docx", 1);
    LexLessAt(".docx", ".gif", 1);
    LexLessAt(".gif", ".jpeg", 1);
    LexLessAt(".jpeg", ".jpg", 3);
    LexLessAt(".jpg", ".pdf", 1);
    LexLessAt(".pdf", ".png", 2);
    LexLessAt(".png", ".txt", 1);
    LexLessAt(".txt", ".xlsx", 1);
  }
}
