/**
 * `KnowledgeBase.extract_text`: dispatch on the extension and join the non-empty
 * parts that the reader libraries deliver. The libraries themselves (PDF, Word and
 * spreadsheet parsing, text decoding) are not modelled: their output is an input here.
 */
module Extraction {
  import opened Wrappers
  import opened Text

  /** A worksheet: its name and its rows of cells, a cell being empty (`None`) or its `str()`. */
  datatype Sheet = Sheet(name: string, rows: seq<seq<Option<string>>>)

  /**
   * What each reader delivers for the stored file: the decoded text (undecodable bytes
   * already replaced), the text of each PDF page ("" for a page without text), the
   * text of each Word paragraph, and the worksheets. Only the view that belongs to
   * the file's extension is consulted.
   */
  datatype Readings = Readings(decoded: string, pages: seq<string>, paragraphs: seq<string>, sheets: seq<Sheet>)

  /** The non-empty parts, in order. */
  function NonEmpty(parts: seq<string>): seq<string> {
    if parts == [] then []
    else NonEmpty(parts[..|parts| - 1]) + (if parts[|parts| - 1] != "" then [parts[|parts| - 1]] else [])
  }

  /** `"\n".join(parts)`. */
  function JoinLines(parts: seq<string>): string {
    JoinWith(parts, "\n")
  }

  /** `str(cell) if cell is not None else ""`. */
  function CellText(cell: Option<string>): string {
    if cell.Some? then cell.value else ""
  }

  /** `"\t".join(...)` over the cells of a row. */
  function RowText(row: seq<Option<string>>): string {
    JoinWith(seq(|row|, i requires 0 <= i < |row| => CellText(row[i])), "\t")
  }

  /** The line `f"--- Sheet: {sheet_name} ---"` that opens each worksheet. */
  function SheetHeader(name: string): string {
    "--- Sheet: " + name + " ---"
  }

  /** The lines of the rows that are not blank once joined. */
  function RowLines(rows: seq<seq<Option<string>>>): seq<string> {
    if rows == [] then []
    else
      var line := RowText(rows[|rows| - 1]);
      RowLines(rows[..|rows| - 1]) + (if !IsBlank(line) then [line] else [])
  }

  /** For each sheet in order, its header line followed by its non-blank row lines. */
  function WorkbookLines(sheets: seq<Sheet>): seq<string> {
    if sheets == [] then []
    else
      var sheet := sheets[|sheets| - 1];
      WorkbookLines(sheets[..|sheets| - 1]) + [SheetHeader(sheet.name)] + RowLines(sheet.rows)
  }

  /** The text extracted for a file with extension `ext`. */
  function ExtractedText(ext: string, r: Readings): string {
    if ext == ".txt" || ext == ".csv" then r.decoded
    else if ext == ".pdf" then JoinLines(NonEmpty(r.pages))
    else if ext == ".docx" then JoinLines(NonEmpty(r.paragraphs))
    else if ext == ".xlsx" then JoinLines(WorkbookLines(r.sheets))
    else ""
  }

  /** `extract_text(filepath, ext)`, with the loops of the PDF and spreadsheet branches. */
  method ExtractText(ext: string, r: Readings) returns (text: string)
    ensures text == ExtractedText(ext, r)
  {
    if ext == ".txt" || ext == ".csv" {
      return r.decoded;
    }
    if ext == ".pdf" {
      var parts: seq<string> := [];
      for i := 0 to |r.pages|
        invariant parts == NonEmpty(r.pages[..i])
      {
        assert r.pages[..i + 1][..i] == r.pages[..i];
        var pageText := r.pages[i];
        if pageText != "" {
          parts := parts + [pageText];
        }
      }
      assert r.pages[..|r.pages|] == r.pages;
      return JoinLines(parts);
    }
    if ext == ".docx" {
      return JoinLines(NonEmpty(r.paragraphs));
    }
    if ext == ".xlsx" {
      var parts: seq<string> := [];
      for i := 0 to |r.sheets|
        invariant parts == WorkbookLines(r.sheets[..i])
      {
        assert r.sheets[..i + 1][..i] == r.sheets[..i];
        var sheet := r.sheets[i];
        parts := parts + [SheetHeader(sheet.name)];
        for j := 0 to |sheet.rows|
          invariant parts == WorkbookLines(r.sheets[..i]) + [SheetHeader(sheet.name)] + RowLines(sheet.rows[..j])
        {
          assert sheet.rows[..j + 1][..j] == sheet.rows[..j];
          var rowText := RowText(sheet.rows[j]);
          if !IsBlank(rowText) {
            parts := parts + [rowText];
          }
        }
        assert sheet.rows[..|sheet.rows|] == sheet.rows;
      }
      assert r.sheets[..|r.sheets|] == r.sheets;
      return JoinLines(parts);
    }
    return "";
  }

  lemma {:induction false} NonEmptyConcat(a: seq<string>, b: seq<string>)
    ensures NonEmpty(a + b) == NonEmpty(a) + NonEmpty(b)
    decreases |b|
  {
    if b == [] {
      assert a + b == a;
    } else {
      var b' := b[..|b| - 1];
      assert (a + b)[..|a + b| - 1] == a + b';
      NonEmptyConcat(a, b');
    }
  }

  /** The kept parts are exactly the non-empty ones. */
  lemma {:induction false} NonEmptyMembers(parts: seq<string>)
    ensures forall x :: x in NonEmpty(parts) <==> x in parts && x != ""
  {
    if parts != [] {
      var front := parts[..|parts| - 1];
      NonEmptyMembers(front);
      assert parts == front + [parts[|parts| - 1]];
    }
  }

  /** An empty part, such as a page without text, leaves the joined text unchanged. */
  lemma EmptyPartIsSkipped(a: seq<string>, b: seq<string>)
    ensures JoinLines(NonEmpty(a + [""] + b)) == JoinLines(NonEmpty(a + b))
  {
    NonEmptyConcat(a + [""], b);
    NonEmptyConcat(a, [""]);
    NonEmptyConcat(a, b);
    assert NonEmpty([""]) == [];
    assert NonEmpty(a) + [] == NonEmpty(a);
  }

  lemma JoinWithEmptyIff(parts: seq<string>, sep: string)
    requires forall i :: 0 <= i < |parts| ==> parts[i] != ""
    ensures JoinWith(parts, sep) == "" <==> parts == []
  {
    if |parts| > 1 {
      assert |JoinWith(parts, sep)| >= |parts[0]|;
    }
  }

  /** The joined text is empty exactly when no part has any text. */
  lemma JoinedNonEmptyIsEmptyIff(parts: seq<string>)
    ensures JoinLines(NonEmpty(parts)) == "" <==> forall i :: 0 <= i < |parts| ==> parts[i] == ""
  {
    var kept := NonEmpty(parts);
    NonEmptyMembers(parts);
    assert forall i :: 0 <= i < |kept| ==> kept[i] in kept;
    JoinWithEmptyIff(kept, "\n");
    if kept == [] {
      assert forall i :: 0 <= i < |parts| ==> parts[i] in parts;
    } else {
      assert kept[0] in parts;
    }
  }

  /** A PDF with an unreadable page among readable ones yields the readable pages' text, in order. */
  lemma PdfSkipsUnreadablePage(p1: string, p2: string, p3: string)
    requires p1 != "" && p2 != "" && p3 != ""
    ensures JoinLines(NonEmpty([p1, "", p2, p3])) == p1 + "\n" + p2 + "\n" + p3
  {
    EmptyPartIsSkipped([p1], [p2, p3]);
    assert [p1] + [""] + [p2, p3] == [p1, "", p2, p3];
    assert [p1] + [p2, p3] == [p1, p2, p3];
    assert NonEmpty([p1]) == [p1];
    assert [p1, p2][..1] == [p1];
    assert NonEmpty([p1, p2]) == [p1, p2];
    assert [p1, p2, p3][..2] == [p1, p2];
    assert NonEmpty([p1, p2, p3]) == [p1, p2, p3];
    assert [p1, p2, p3][1..] == [p2, p3] && [p2, p3][1..] == [p3];
    assert JoinWith([p2, p3], "\n") == p2 + "\n" + p3;
    assert JoinLines([p1, p2, p3]) == p1 + "\n" + (p2 + "\n" + p3);
  }

  /** The kept row lines are exactly the joined rows that are not blank. */
  lemma {:induction false} RowLinesMembers(rows: seq<seq<Option<string>>>)
    ensures forall l :: l in RowLines(rows) <==> !IsBlank(l) && exists i :: 0 <= i < |rows| && RowText(rows[i]) == l
  {
    if rows != [] {
      var front := rows[..|rows| - 1];
      RowLinesMembers(front);
      forall i | 0 <= i < |front|
        ensures front[i] == rows[i]
      {
      }
    }
  }

  /** The row lines of consecutive rows follow one another, in row order. */
  lemma {:induction false} RowLinesConcat(a: seq<seq<Option<string>>>, b: seq<seq<Option<string>>>)
    ensures RowLines(a + b) == RowLines(a) + RowLines(b)
    decreases |b|
  {
    if b == [] {
      assert a + b == a;
    } else {
      var b' := b[..|b| - 1];
      assert (a + b)[..|a + b| - 1] == a + b';
      RowLinesConcat(a, b');
    }
  }

  /** The lines of consecutive sheets follow one another, in sheet order. */
  lemma {:induction false} WorkbookLinesConcat(a: seq<Sheet>, b: seq<Sheet>)
    ensures WorkbookLines(a + b) == WorkbookLines(a) + WorkbookLines(b)
    decreases |b|
  {
    if b == [] {
      assert a + b == a;
    } else {
      var b', sheet := b[..|b| - 1], b[|b| - 1];
      var header, lines := [SheetHeader(sheet.name)], RowLines(sheet.rows);
      assert (a + b)[..|a + b| - 1] == a + b' && (a + b)[|a + b| - 1] == sheet;
      WorkbookLinesConcat(a, b');
      ConcatAssociative(WorkbookLines(a + b'), header, lines);
      ConcatAssociative(WorkbookLines(b'), header, lines);
      ConcatAssociative(WorkbookLines(a), WorkbookLines(b'), header + lines);
    }
  }

  /** One sheet gives its header line followed by its non-blank row lines. */
  lemma WorkbookLinesSingle(sheet: Sheet)
    ensures WorkbookLines([sheet]) == [SheetHeader(sheet.name)] + RowLines(sheet.rows)
  {
    assert [sheet][..0] == [];
  }

  /** An extension without a reader gives the empty text. */
  lemma UnknownExtensionGivesEmptyText(ext: string, r: Readings)
    requires ext !in {".txt", ".csv", ".pdf", ".docx", ".xlsx"}
    ensures ExtractedText(ext, r) == ""
  {
  }
}
