/** The batch pipeline of the app: `process_single_file`, the cap on the number
    of uploads, and the loop that collects one row per completed file and
    reports progress. The thread pool is modelled by the order in which the
    submitted files complete. */
module App {
  import opened Wrappers
  import opened Records
  import opened Pdf
  import Metadata
  import Utils

  const MaxUploads := 50
  const FilenameKey := "filename"
  const ReaderErrorPrefix := "Error extracting text from "

  /** The keys of the record used when the metadata extractor raises. They are
      not the field names of the extractor's own schema. */
  const FallbackKeys: seq<string> := [
    "title", "authors", "year", "journal", "objective",
    "methodology", "findings", "limitations", "error"]

  /** An uploaded file: its name and the document its bytes hold. */
  datatype Upload = Upload(name: string, doc: Document)

  /** What `extractor.extract(text)` does as seen by its caller: returns a dict
      or raises with a message. */
  datatype ExtractOutcome = Returns(record: PyDict) | Raises(msg: string)

  /** The directory of named temporary files; `live` is the set of paths that
      exist. */
  class TempDir {
    ghost var live: set<nat>
    var next: nat

    ghost predicate Valid()
      reads this
    {
      forall p :: p in live ==> p < next
    }

    constructor ()
      ensures Valid() && live == {}
    {
      live := {};
      next := 0;
    }

    /** `tempfile.NamedTemporaryFile(delete=False)`: a new file under a path
        not in use. */
    method Create() returns (path: nat)
      requires Valid()
      modifies this
      ensures Valid()
      ensures path !in old(live) && live == old(live) + {path}
    {
      path := next;
      live := live + {path};
      next := next + 1;
    }

    /** `os.remove(path)` on an existing file. */
    method Remove(path: nat)
      requires Valid() && path in live
      modifies this
      ensures Valid() && live == old(live) - {path}
    {
      live := live - {path};
    }
  }

  /** The PyPDF2 loop over the pages: `page_text + "\n"` is appended for every
      page whose text is non-empty, and the first page that raises ends the
      loop with its message. */
  function ReadPages(pages: seq<Page>): Result<string, string>
  {
    if pages == [] then Ok("")
    else
      match ReadPages(pages[..|pages| - 1])
      case Err(msg) => Err(msg)
      case Ok(text) =>
        match pages[|pages| - 1]
        case PageRaises(msg) => Err(msg)
        case PageNone => Ok(text)
        case PageText(t) => Ok(if t != "" then text + t + "\n" else text)
  }

  function ReaderError(filename: string, msg: string): string
  {
    ReaderErrorPrefix + filename + ": " + msg
  }

  /** The text handed to the metadata extractor for a file. */
  function PdfText(filename: string, doc: Document): string
  {
    match doc
    case OpenFails(msg) => ReaderError(filename, msg)
    case Opened(pages) =>
      match ReadPages(pages)
      case Ok(text) => text
      case Err(msg) => ReaderError(filename, msg)
  }

  /** The text-extraction part of `process_single_file`. */
  method ReadPdfText(filename: string, doc: Document) returns (text: string)
    ensures text == PdfText(filename, doc)
  {
    text := "";
    match doc
    case OpenFails(msg) =>
      text := ReaderError(filename, msg);
    case Opened(pages) =>
      var i := 0;
      while i < |pages|
        invariant 0 <= i <= |pages|
        invariant ReadPages(pages[..i]) == Ok(text)
      {
        assert pages[..i + 1][..i] == pages[..i];
        var page := pages[i];
        if page.PageRaises? {
          ReadPagesAppend(pages[..i + 1], pages[i + 1..]);
          assert pages[..i + 1] + pages[i + 1..] == pages;
          text := ReaderError(filename, page.msg);
          return;
        }
        if page.PageText? && page.text != "" {
          text := text + page.text + "\n";
        }
        i := i + 1;
      }
      assert pages[..i] == pages;
  }

  /** Reading two runs of pages one after the other: an exception in the first
      run ends the loop, otherwise the texts are concatenated in page order or
      the second run's exception ends it. */
  lemma {:induction false} ReadPagesAppend(p: seq<Page>, q: seq<Page>)
    ensures ReadPages(p + q) ==
      match ReadPages(p)
      case Err(msg) => Err(msg)
      case Ok(a) =>
        match ReadPages(q)
        case Err(msg) => Err(msg)
        case Ok(b) => Ok(a + b)
    decreases |q|
  {
    if q == [] {
      assert p + q == p;
      match ReadPages(p)
      case Err(_) =>
      case Ok(a) => assert a + "" == a;
    } else {
      var q' := q[..|q| - 1];
      assert (p + q)[..|p + q| - 1] == p + q';
      assert (p + q)[|p + q| - 1] == q[|q| - 1];
      ReadPagesAppend(p, q');
      match ReadPages(p)
      case Err(_) =>
      case Ok(a) =>
        match ReadPages(q')
        case Err(_) =>
        case Ok(b) =>
          match q[|q| - 1]
          case PageText(t) =>
            assert a + b + t + "\n" == a + (b + t + "\n");
          case PageNone =>
          case PageRaises(_) =>
    }
  }

  /** A page that raises replaces whatever text was gathered before it with the
      error string, whatever the pages after it hold. */
  lemma RaisingPageDiscardsText(filename: string, p: seq<Page>, msg: string, q: seq<Page>)
    requires ReadPages(p).Ok?
    ensures PdfText(filename, Opened(p + [PageRaises(msg)] + q)) == ReaderError(filename, msg)
  {
    ReadPagesAppend(p + [PageRaises(msg)], q);
    ReadPagesAppend(p, [PageRaises(msg)]);
  }

  /** Pages whose text is empty or None add nothing. */
  lemma BlankPagesAddNothing(p: seq<Page>, q: seq<Page>)
    ensures ReadPages(p + [PageNone] + q) == ReadPages(p + q)
    ensures ReadPages(p + [PageText("")] + q) == ReadPages(p + q)
  {
    ReadPagesAppend(p + [PageNone], q);
    ReadPagesAppend(p, [PageNone]);
    ReadPagesAppend(p + [PageText("")], q);
    ReadPagesAppend(p, [PageText("")]);
    ReadPagesAppend(p, q);
    assert ReadPages([PageNone]) == Ok("");
    assert ReadPages([PageText("")]) == Ok("");
    match ReadPages(p)
    case Err(_) =>
    case Ok(a) => assert a + "" == a;
  }

  /** `text` of the pages without an exception, written independently: the
      non-empty page texts, each followed by a newline, in page order. */
  function Lines(pages: seq<Page>): string
  {
    if pages == [] then ""
    else
      (if pages[0].PageText? && pages[0].text != "" then pages[0].text + "\n" else "")
      + Lines(pages[1..])
  }

  /** Without an exception, the text is the in-order concatenation of
      `page_text + "\n"` over the pages with non-empty text. */
  lemma {:induction false} ReadPagesIsLines(pages: seq<Page>)
    requires forall i :: 0 <= i < |pages| ==> !pages[i].PageRaises?
    ensures ReadPages(pages) == Ok(Lines(pages))
    decreases |pages|
  {
    if pages != [] {
      assert pages == [pages[0]] + pages[1..];
      ReadPagesIsLines(pages[1..]);
      ReadPagesAppend([pages[0]], pages[1..]);
      assert [pages[0]][..0] == [];
      assert ReadPages([pages[0]][..0]) == Ok("");
      match pages[0]
      case PageText(t) =>
        assert "" + t + "\n" == t + "\n";
      case PageNone =>
      case PageRaises(_) =>
    }
  }

  /** The record used when `extractor.extract` raises: every field None and
      the exception's message under "error". */
  function Fallback(msg: string): (d: PyDict)
    ensures d.keys == FallbackKeys
    ensures d.Get("error") == Some(Str(msg))
    ensures forall k :: k in FallbackKeys[..8] ==> d.Get(k) == Some(Null)
  {
    FallbackValid(msg);
    Dict(FallbackKeys, FallbackValues(msg))
  }

  /** The fallback record's values: the message under "error", None elsewhere. */
  function FallbackValues(msg: string): map<string, Cell>
  {
    map k | k in FallbackKeys :: if k == "error" then Str(msg) else Null
  }

  lemma FallbackValid(msg: string)
    ensures Dict(FallbackKeys, FallbackValues(msg)).Valid()
    ensures "error" in FallbackValues(msg) && FallbackValues(msg)["error"] == Str(msg)
    ensures forall k :: k in FallbackKeys[..8] ==> k in FallbackValues(msg) && FallbackValues(msg)[k] == Null
  {
    FallbackKeysDistinct();
    assert FallbackKeys[8] == "error";
  }

  lemma FallbackKeysDistinct()
    ensures Distinct(FallbackKeys) && "error" !in FallbackKeys[..8]
  {
    assert FallbackKeys[..8] == ["title", "authors", "year", "journal", "objective", "methodology", "findings", "limitations"];
  }

  /** The metadata of a file: what the extractor returned, or the fallback. */
  function MetadataOf(outcome: ExtractOutcome): PyDict
  {
    match outcome
    case Returns(d) => d
    case Raises(msg) => Fallback(msg)
  }

  /** `{"filename": filename, **metadata}`. */
  function WithFilename(filename: string, metadata: PyDict): PyDict
  {
    Merge(Dict([FilenameKey], map[FilenameKey := Str(filename)]), metadata)
  }

  /** The row `process_single_file` returns. */
  function ResultRow(filename: string, doc: Document, extract: string -> ExtractOutcome): PyDict
  {
    WithFilename(filename, MetadataOf(extract(PdfText(filename, doc))))
  }

  /** The row's first key is "filename"; the metadata's entries follow in their
      own order and with their own values. When the metadata has no
      "filename" key the row's "filename" is the input filename; when it does,
      its value wins but the key stays first, as a Python dict does. */
  lemma RowLayout(filename: string, metadata: PyDict)
    ensures var row := WithFilename(filename, metadata);
      && |row.keys| >= 1 && row.keys[0] == FilenameKey
      && row.values == map[FilenameKey := Str(filename)] + metadata.values
      && (FilenameKey !in metadata.values ==> row.keys == [FilenameKey] + metadata.keys)
  {
    var head: PyDict := Dict([FilenameKey], map[FilenameKey := Str(filename)]);
    MergeValues(head, metadata);
    MergeKeys(head, metadata);
    if FilenameKey !in metadata.values {
      NewKeysDisjoint(head, metadata.keys);
    }
  }

  /** When the metadata extractor raises, the row is "filename" followed by
      the fallback record: the eight fields None and "error" holding the
      exception's message. */
  lemma RowOnExtractorFailure(filename: string, doc: Document, extract: string -> ExtractOutcome, msg: string)
    requires extract(PdfText(filename, doc)) == Raises(msg)
    ensures var row := ResultRow(filename, doc, extract);
      && row.keys == [FilenameKey] + FallbackKeys
      && row.Get(FilenameKey) == Some(Str(filename))
      && row.Get("error") == Some(Str(msg))
      && forall k :: k in FallbackKeys[..8] ==> row.Get(k) == Some(Null)
  {
    var fallback := Fallback(msg);
    FallbackKeysDistinct();
    assert FilenameKey !in FallbackKeys;
    RowLayout(filename, fallback);
    var row := ResultRow(filename, doc, extract);
    assert row == WithFilename(filename, fallback);
    forall k | k in FallbackKeys[..8] ensures row.Get(k) == Some(Null) {
      assert k in FallbackKeys && k != FilenameKey;
    }
  }

  /** With the Gemini extractor behind `extract`, the record never holds a
      "filename" key, so every row names its own file and then lists either
      the eight schema fields or just "error". */
  lemma GeminiRowNamesItsFile(filename: string, outcome: Metadata.ChainOutcome)
    ensures var row := WithFilename(filename, Metadata.GeminiExtract(outcome));
      && row.Get(FilenameKey) == Some(Str(filename))
      && (row.keys == [FilenameKey] + Metadata.PaperFields || row.keys == [FilenameKey, "error"])
  {
    RowLayout(filename, Metadata.GeminiExtract(outcome));
  }

  /** What `results_to_dataframe` would make of the app's rows: its canonical
      column list names "file_name", so the app's "filename" column is not
      among the columns moved to the front but is placed after them. The app
      itself builds its table with `pd.DataFrame(results)` and never calls
      `results_to_dataframe`, so in the app's own table "filename" stays first.
      Shown for one paper parsed by the Gemini extractor: its row's columns are
      "filename" and the eight schema fields, and the reordered columns list
      the schema fields first. */
  lemma FilenameColumnLast(filename: string, meta: Metadata.PaperMetadata)
    ensures var cols := Utils.UnionColumns([WithFilename(filename, Metadata.ToDict(meta))]);
      && cols == [FilenameKey] + Metadata.PaperFields
      && Utils.OrderedColumns(cols) == Metadata.PaperFields + [FilenameKey]
  {
    var row := WithFilename(filename, Metadata.ToDict(meta));
    ParsedRowKeys(filename, meta);
    Utils.UnionColumnsSingle(row);
    FilenameAfterFields();
  }

  /** Reordering "filename" and the schema fields puts "filename" last. */
  lemma FilenameAfterFields()
    ensures Utils.OrderedColumns([FilenameKey] + Metadata.PaperFields) == Metadata.PaperFields + [FilenameKey]
  {
    var fields := Metadata.PaperFields;
    var cols := [FilenameKey] + fields;
    assert FilenameKey !in fields;
    Utils.OrderedColumnsShape(cols);
    Utils.PresentSameMembers(Utils.CanonicalColumns, cols, fields);
    SchemaFieldsCanonical();
    Utils.AbsentAll(fields, Utils.CanonicalColumns);
    assert Utils.Absent(cols, Utils.CanonicalColumns) == [FilenameKey];
  }

  /** The schema fields are canonical columns, in canonical order, and the
      only ones. */
  lemma SchemaFieldsCanonical()
    ensures Utils.Present(Utils.CanonicalColumns, Metadata.PaperFields) == Metadata.PaperFields
  {
    var fields := Metadata.PaperFields;
    assert Utils.CanonicalColumns == ["file_name"] + fields + ["error"];
    assert "file_name" !in fields && "error" !in fields;
    assert Utils.Present(["file_name"], fields) == [];
    assert Utils.Present(["error"], fields) == [];
    Utils.PresentAppend(["file_name"] + fields, ["error"], fields);
    Utils.PresentAppend(["file_name"], fields, fields);
    Utils.PresentAll(fields, fields);
  }

  /** `process_single_file`: writes the file to a temporary path, extracts
      its text, runs the metadata extractor (falling back to the error record
      if it raises), removes the temporary file and returns the row. */
  method ProcessSingleFile(tmp: TempDir, filename: string, doc: Document, extract: string -> ExtractOutcome)
    returns (row: PyDict)
    requires tmp.Valid()
    modifies tmp
    ensures tmp.Valid() && tmp.live == old(tmp.live)
    ensures row == ResultRow(filename, doc, extract)
  {
    var tempPath := tmp.Create();
    var text := ReadPdfText(filename, doc);
    var metadata: PyDict;
    match extract(text) {
      case Returns(d) =>
        metadata := d;
      case Raises(msg) =>
        metadata := Fallback(msg);
    }
    tmp.Remove(tempPath);
    row := WithFilename(filename, metadata);
  }

  /** The uploads that are processed: at most the first fifty, in upload
      order; fifty or fewer are kept as they are. */
  function CapUploads(files: seq<Upload>): (kept: seq<Upload>)
    ensures |kept| <= MaxUploads && |kept| <= |files|
    ensures kept == files[..|kept|]
    ensures |files| <= MaxUploads ==> kept == files
    ensures |files| > MaxUploads ==> |kept| == MaxUploads
  {
    if |files| > MaxUploads then files[..MaxUploads] else files
  }

  function Range(n: nat): seq<nat>
  {
    seq(n, i => i)
  }

  /** The row of every uploaded file, in upload order. */
  function UploadRows(files: seq<Upload>, extract: string -> ExtractOutcome): (rows: seq<PyDict>)
    ensures |rows| == |files|
  {
    seq(|files|, i requires 0 <= i < |files| => ResultRow(files[i].name, files[i].doc, extract))
  }

  /** The elements of `rows` at the given indices, in that order. */
  function Pick<T>(rows: seq<T>, indices: seq<nat>): seq<T>
    requires forall k :: 0 <= k < |indices| ==> indices[k] < |rows|
  {
    seq(|indices|, k requires 0 <= k < |indices| => rows[indices[k]])
  }

  /** The progress numerators reported after each of `n` completions, over the
      total `n`: they rise by one at each step and end at the total. */
  function Progress(n: nat): (p: seq<nat>)
    ensures |p| == n
    ensures forall i :: 0 <= i < n ==> 1 <= p[i] <= n
    ensures forall i, j :: 0 <= i < j < n ==> p[i] < p[j]
    ensures n > 0 ==> p[n - 1] == n
  {
    seq(n, i => i + 1)
  }

  /** Each completion reports the next numerator. */
  lemma ProgressStep(i: nat)
    ensures Progress(i + 1) == Progress(i) + [i + 1]
  {
  }

  /** A permutation of the submission indices has one entry per file, each
      naming a submitted file. */
  lemma CompletionBounds(completion: seq<nat>, n: nat)
    requires multiset(completion) == multiset(Range(n))
    ensures |completion| == n
    ensures forall k :: 0 <= k < |completion| ==> completion[k] < n
  {
    assert |multiset(completion)| == |multiset(Range(n))|;
    forall k | 0 <= k < |completion| ensures completion[k] < n {
      assert completion[k] in multiset(completion);
      assert completion[k] in Range(n);
    }
  }

  /** Every submitted file completes. */
  lemma CompletionCovers(completion: seq<nat>, n: nat)
    requires multiset(completion) == multiset(Range(n))
    ensures forall j :: 0 <= j < n ==> j in completion
  {
    forall j | 0 <= j < n ensures j in completion {
      assert Range(n)[j] == j;
      assert j in multiset(Range(n));
    }
  }

  /** The collection loop: `as_completed` yields the futures in `completion`
      order, a permutation of the submission indices; each completed row is
      appended and the progress numerator `i + 1` is reported. */
  method RunBatch(tmp: TempDir, files: seq<Upload>, completion: seq<nat>, extract: string -> ExtractOutcome)
    returns (results: seq<PyDict>, progress: seq<nat>)
    requires tmp.Valid()
    requires multiset(completion) == multiset(Range(|files|))
    modifies tmp
    ensures tmp.Valid() && tmp.live == old(tmp.live)
    ensures |results| == |files|
    ensures forall k :: 0 <= k < |completion| ==> completion[k] < |files|
    ensures results == Pick(UploadRows(files, extract), completion)
    ensures progress == Progress(|files|)
  {
    CompletionBounds(completion, |files|);
    ghost var rows := UploadRows(files, extract);
    results := [];
    progress := [];
    for i := 0 to |completion|
      invariant tmp.Valid() && tmp.live == old(tmp.live)
      invariant results == Pick(rows, completion[..i])
      invariant progress == Progress(i)
    {
      var f := files[completion[i]];
      var result := ProcessSingleFile(tmp, f.name, f.doc, extract);
      assert result == rows[completion[i]];
      PickStep(rows, completion, i);
      ProgressStep(i);
      results := results + [result];
      progress := progress + [i + 1];
    }
    assert completion[..|completion|] == completion;
  }

  /** The app's table takes its columns from the rows in completion order, so
      the column order depends on which file finishes first: a parsed paper
      and a failed one give different column orders in the two completion
      orders. */
  lemma CompletionOrderChangesColumns(files: seq<Upload>, extract: string -> ExtractOutcome,
                                      meta: Metadata.PaperMetadata, msg: string)
    requires |files| == 2
    requires extract(PdfText(files[0].name, files[0].doc)) == Returns(Metadata.ToDict(meta))
    requires extract(PdfText(files[1].name, files[1].doc))
          == Returns(Metadata.GeminiExtract(Metadata.ChainFails(msg)))
    ensures Utils.UnionColumns(Pick(UploadRows(files, extract), [0, 1]))
         != Utils.UnionColumns(Pick(UploadRows(files, extract), [1, 0]))
  {
    var rows := UploadRows(files, extract);
    var ok := WithFilename(files[0].name, Metadata.ToDict(meta));
    var bad := WithFilename(files[1].name, Metadata.GeminiExtract(Metadata.ChainFails(msg)));
    assert rows[0] == ok && rows[1] == bad;
    PickPair(rows, 0, 1);
    PickPair(rows, 1, 0);
    ParsedRowKeys(files[0].name, meta);
    FailedRowKeys(files[1].name, msg);
    FirstRowDecidesSecondColumn(ok, bad);
  }

  lemma PickPair<T>(rows: seq<T>, a: nat, b: nat)
    requires a < |rows| && b < |rows|
    ensures Pick(rows, [a, b]) == [rows[a], rows[b]]
  {
  }

  /** A parsed paper's row is "filename" followed by the schema fields. */
  lemma ParsedRowKeys(filename: string, meta: Metadata.PaperMetadata)
    ensures WithFilename(filename, Metadata.ToDict(meta)).keys == [FilenameKey] + Metadata.PaperFields
  {
    assert FilenameKey !in Metadata.PaperFields;
    RowLayout(filename, Metadata.ToDict(meta));
  }

  /** A failed extraction's row is "filename" followed by "error". */
  lemma FailedRowKeys(filename: string, msg: string)
    ensures WithFilename(filename, Metadata.GeminiExtract(Metadata.ChainFails(msg))).keys == [FilenameKey, "error"]
  {
    RowLayout(filename, Metadata.GeminiExtract(Metadata.ChainFails(msg)));
  }

  /** With two rows whose second keys differ, the second column is that of
      whichever row comes first. */
  lemma FirstRowDecidesSecondColumn(a: PyDict, b: PyDict)
    requires |a.keys| >= 2 && |b.keys| >= 2 && a.keys[0] == b.keys[0] && a.keys[1] != b.keys[1]
    ensures Utils.UnionColumns([a, b]) != Utils.UnionColumns([b, a])
  {
    Utils.UnionColumnsPair(a, b);
    Utils.UnionColumnsPair(b, a);
    assert Utils.UnionColumns([a, b])[1] == a.keys[1];
    assert Utils.UnionColumns([b, a])[1] == b.keys[1];
  }

  /** The collection loop with a slot per submitted file: each completed row
      is stored under its file's submission index, so the rows come out in
      upload order and the table built from them has the same columns
      whatever the completion order. */
  method RunBatchInUploadOrder(tmp: TempDir, files: seq<Upload>, completion: seq<nat>, extract: string -> ExtractOutcome)
    returns (results: seq<PyDict>, progress: seq<nat>)
    requires tmp.Valid()
    requires multiset(completion) == multiset(Range(|files|))
    modifies tmp
    ensures tmp.Valid() && tmp.live == old(tmp.live)
    ensures results == UploadRows(files, extract)
    ensures progress == Progress(|files|)
  {
    CompletionBounds(completion, |files|);
    ghost var rows := UploadRows(files, extract);
    var slots: seq<PyDict> := seq(|files|, _ => Dict([], map[]));
    progress := [];
    for i := 0 to |completion|
      invariant tmp.Valid() && tmp.live == old(tmp.live)
      invariant |slots| == |files|
      invariant forall j :: 0 <= j < |files| && j in completion[..i] ==> slots[j] == rows[j]
      invariant progress == Progress(i)
    {
      var f := files[completion[i]];
      var row := ProcessSingleFile(tmp, f.name, f.doc, extract);
      assert completion[..i + 1] == completion[..i] + [completion[i]];
      slots := slots[completion[i] := row];
      ProgressStep(i);
      progress := progress + [i + 1];
    }
    CompletionCovers(completion, |files|);
    assert completion[..|completion|] == completion;
    results := slots;
  }

  /** The batch yields exactly one row per submitted file, whatever the
      completion order: the rows are a permutation of the rows in upload order. */
  lemma BatchRowsArePermutation(files: seq<Upload>, completion: seq<nat>, extract: string -> ExtractOutcome)
    requires multiset(completion) == multiset(Range(|files|))
    ensures forall k :: 0 <= k < |completion| ==> completion[k] < |files|
    ensures multiset(Pick(UploadRows(files, extract), completion)) == multiset(UploadRows(files, extract))
  {
    var rows := UploadRows(files, extract);
    CompletionBounds(completion, |files|);
    PickPermutation(rows, completion, Range(|files|));
    assert Pick(rows, Range(|files|)) == rows;
  }

  /** Picking by a permutation of the same indices permutes the picked elements. */
  lemma {:induction false} PickPermutation<T>(rows: seq<T>, a: seq<nat>, b: seq<nat>)
    requires multiset(a) == multiset(b)
    requires forall k :: 0 <= k < |b| ==> b[k] < |rows|
    ensures forall k :: 0 <= k < |a| ==> a[k] < |rows|
    ensures multiset(Pick(rows, a)) == multiset(Pick(rows, b))
    decreases |a|
  {
    if a != [] {
      var pre, post := Unplug(a, b);
      assert a[0] == b[|pre|];
      forall k | 0 <= k < |pre| ensures pre[k] < |rows| {
        assert pre[k] == b[k];
      }
      forall k | 0 <= k < |post| ensures post[k] < |rows| {
        assert post[k] == b[|pre| + 1 + k];
      }
      PickPermutation(rows, a[1..], pre + post);
      forall k | 0 < k < |a| ensures a[k] < |rows| {
        assert a[k] == a[1..][k - 1];
      }
      PickMove(rows, a[0], a[1..], pre, post);
    }
  }

  /** A permutation `b` of a non-empty `a` has `a[0]` somewhere, and the rest of
      `b` is a permutation of the rest of `a`. */
  lemma Unplug(a: seq<nat>, b: seq<nat>) returns (pre: seq<nat>, post: seq<nat>)
    requires multiset(a) == multiset(b) && a != []
    ensures b == pre + ([a[0]] + post) && a == [a[0]] + a[1..]
    ensures multiset(a[1..]) == multiset(pre + post)
  {
    var x := a[0];
    assert x in b by {
      assert x in multiset(b);
    }
    var j :| 0 <= j < |b| && b[j] == x;
    pre, post := b[..j], b[j + 1..];
    RemoveAt(b, j);
    assert a == [x] + a[1..];
    assert b == pre + ([x] + post);
  }

  /** Moving one index to another place in the list moves its picked element. */
  lemma PickMove<T>(rows: seq<T>, x: nat, a: seq<nat>, pre: seq<nat>, post: seq<nat>)
    requires x < |rows|
    requires forall k :: 0 <= k < |a| ==> a[k] < |rows|
    requires forall k :: 0 <= k < |pre| ==> pre[k] < |rows|
    requires forall k :: 0 <= k < |post| ==> post[k] < |rows|
    requires multiset(Pick(rows, a)) == multiset(Pick(rows, pre + post))
    ensures multiset(Pick(rows, [x] + a)) == multiset(Pick(rows, pre + ([x] + post)))
  {
    PickConcat(rows, [x], a);
    PickConcat(rows, pre, [x] + post);
    PickConcat(rows, [x], post);
    PickConcat(rows, pre, post);
    var r := rows[x];
    assert Pick(rows, [x]) == [r];
    calc {
      multiset(Pick(rows, [x] + a));
      multiset([r] + Pick(rows, a));
      multiset{r} + multiset(Pick(rows, pre) + Pick(rows, post));
      multiset(Pick(rows, pre) + ([r] + Pick(rows, post)));
    }
  }

  /** Removing the element at `j` removes one occurrence of it. */
  lemma RemoveAt<T>(s: seq<T>, j: nat)
    requires j < |s|
    ensures multiset(s[..j] + s[j + 1..]) == multiset(s) - multiset{s[j]}
  {
    assert s == s[..j] + [s[j]] + s[j + 1..];
  }

  /** Picking one more index appends its element. */
  lemma PickStep<T>(rows: seq<T>, indices: seq<nat>, i: nat)
    requires i < |indices| && forall k :: 0 <= k < |indices| ==> indices[k] < |rows|
    ensures Pick(rows, indices[..i + 1]) == Pick(rows, indices[..i]) + [rows[indices[i]]]
  {
    assert indices[..i + 1] == indices[..i] + [indices[i]];
    PickConcat(rows, indices[..i], [indices[i]]);
  }

  /** Picking by concatenated index lists concatenates the picks. */
  lemma PickConcat<T>(rows: seq<T>, a: seq<nat>, b: seq<nat>)
    requires forall k :: 0 <= k < |a| ==> a[k] < |rows|
    requires forall k :: 0 <= k < |b| ==> b[k] < |rows|
    ensures Pick(rows, a + b) == Pick(rows, a) + Pick(rows, b)
  {
  }

  /** The app's flow once the files are processed: the cap, then, for a
      non-empty upload, the batch loop, which appends the rows in completion
      order, and `pd.DataFrame(results)`. With no upload nothing is processed
      and no table is built. */
  method ProcessUploads(tmp: TempDir, uploads: seq<Upload>, completion: seq<nat>, extract: string -> ExtractOutcome)
    returns (uploadedFiles: seq<Upload>, results: seq<PyDict>, progress: seq<nat>, df: Option<Utils.Frame>)
    requires tmp.Valid()
    requires multiset(completion) == multiset(Range(|CapUploads(uploads)|))
    modifies tmp
    ensures tmp.Valid() && tmp.live == old(tmp.live)
    ensures uploadedFiles == CapUploads(uploads)
    ensures |results| == |uploadedFiles| && progress == Progress(|uploadedFiles|)
    ensures forall k :: 0 <= k < |completion| ==> completion[k] < |uploadedFiles|
    ensures results == Pick(UploadRows(uploadedFiles, extract), completion)
    ensures multiset(results) == multiset(UploadRows(uploadedFiles, extract))
    ensures df == if uploadedFiles == [] then None else Some(Utils.FromRecords(results))
  {
    CompletionBounds(completion, |CapUploads(uploads)|);
    uploadedFiles := uploads;
    if |uploadedFiles| > MaxUploads {
      uploadedFiles := uploadedFiles[..MaxUploads];
    }
    if |uploadedFiles| == 0 {
      results, progress, df := [], [], None;
    } else {
      results, progress := RunBatch(tmp, uploadedFiles, completion, extract);
      BatchRowsArePermutation(uploadedFiles, completion, extract);
      df := Some(Utils.FromRecords(results));
    }
  }
}
