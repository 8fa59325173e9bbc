# Research article metadata extractor: verified model of the batch core

The application takes up to fifty uploaded PDF research papers. It extracts each
paper's text and has a language model fill in a metadata record for it: title,
authors, year, venue, objective, methodology, findings and limitations. It
collects one row per paper and shows the rows as a table. This project models the
sequential logic behind that pipeline, in Dafny, and proves what it promises:

- `extractor.py`, `extract_text_from_pdf_bytes`. It turns a PDF into a
  `(text, error)` pair. Zero pages is an error. A page that raises is skipped. A
  page with no text adds an empty chunk. The chunks are joined with a blank line
  and stripped. An empty result is reported as a probable image-only PDF.
  Modelled imperatively (`Extractor.ExtractTextFromPdfBytes`) and proved equal
  to the specification function `Extractor.Extraction`.
- `app.py`. `process_single_file` writes a temporary file, reads the page texts
  (`page_text + "\n"` per non-empty page, or an error string if the reader
  raises) and calls the metadata extractor, using a fixed fallback record if it
  raises. It then removes the temporary file and returns
  `{"filename": name, **metadata}`. Around it sit the cap of fifty uploads and
  the loop that collects one row per completed file and reports progress. The
  temporary directory is a class whose ghost field `live` is the set of existing
  temporary paths. The thread pool is modelled by `completion`, the order in
  which the submitted files complete: any permutation of the submission
  indices. Progress is the integer numerator `i + 1` over the total.
- `utils.py`, `results_to_dataframe`. It builds a table from a list of dicts
  with `pd.DataFrame`. The columns are the keys in first-seen order. A record
  that lacks a column gets pandas' missing value (NaN), which the model writes
  as `Null`. The canonical columns that are present are then moved to the
  front, in canonical order, ahead of the other columns in their original
  order.

Python dicts are modelled as an insertion order over distinct keys plus a map
(`Records.Dict`, with `PyDict` the dicts satisfying `Valid()`).
`{"filename": f, **metadata}` keeps Python's semantics. The key "filename" is
always first. If the metadata had its own "filename" key, its value would win.
Python's `str.strip()` without arguments removes exactly the characters for
which `str.isspace()` holds; `Text.IsSpace` lists them.

The app itself never calls `results_to_dataframe`: it builds its table with
`pd.DataFrame(results)` (app.py:104), so in the app's table the columns are the
rows' keys in first-seen order and "filename" comes first.
`Utils.FromRecords` models that call, and `Utils.ResultsToDataframe` the
utility function.

Two mismatches in the source are modelled as written, not reconciled:

- The canonical column list of `results_to_dataframe` names `"file_name"`,
  but the app's rows carry `"filename"` (app.py:62). If those rows were passed
  to it, that column would not be moved to the front:
  `App.FilenameColumnLast` proves it would end up after the schema fields.
- The fallback record's keys (`year`, `journal`, `objective`, `findings`) are not
  the extractor schema's field names (`publication_year`,
  `journal_or_conference`, `research_objective`, `key_findings`).

Rows are collected in completion order, and `App.BatchRowsArePermutation`
proves they are a permutation of the rows in upload order. The table's columns
follow first-seen order (`Utils.UnionColumnsFirstSeen`), so the app's column
order depends on which file finishes first. `App.CompletionOrderChangesColumns`
exhibits two files for which the two completion orders give different column
orders (see Findings). `App.RunBatchInUploadOrder` is the collection loop with
one slot per submitted file. It yields the rows in upload order whatever the
completion order, so the table built from them does not depend on it.
`Utils.UnionColumnsPrefix` states what does not depend on completion order
even in the app as written: columns already seen keep their place as more rows
arrive.

Files: `wrappers.dfy` (Option, Result), `text.dfy` (strip, join),
`records.dfy` (ordered dicts and merging), `pdf.dfy` (the abstract document:
the open fails with a message, or it yields pages whose text is a string, None,
or an exception), `extractor.dfy`, `metadata.dfy` (the shape of the language
model's record), `app.dfy`, `utils.dfy`.

## Model

| member | source | states |
|---|---|---|
| Text.Strip | extractor.py:24 | `.strip()` returns the piece of its input that is left after cutting whitespace from both ends; it is empty exactly when the input is all whitespace, and otherwise neither starts nor ends with whitespace |
| Text.Join | extractor.py:24 | `sep.join(parts)` has the parts' total length plus one separator between each pair, and is empty for no parts |
| Text.JoinAppend | extractor.py:24 | joining two non-empty lists puts exactly one separator between their joins |
| Extractor.Extraction | extractor.py:6-29 | exactly one of text and error is non-empty; the text never starts or ends with whitespace; the error is empty exactly when the PDF opened, has pages, and the joined chunks are not all whitespace |
| Extractor.ExtractTextFromPdfBytes | extractor.py:12-29 | the loop over the pages returns the pair the specification function gives for every document: open failure, zero pages, the stripped join of the chunks, or the image-PDF error |
| Extractor.ChunksAppend | extractor.py:17-23 | the chunk list of consecutive page runs is the concatenation of their chunk lists, in page order |
| Extractor.SkipsRaisingPage | extractor.py:17-23 | a page that raises adds no chunk and the pages after it are still read |
| Extractor.NonePageKeepsSeparator | extractor.py:19-24 | for any pages around it, a page whose text is None adds an empty chunk that takes part in the join; when both sides have chunks it leaves four newlines between their joins |
| Extractor.ImageOnlyDocument | extractor.py:24-26 | a document with pages none of which yields non-whitespace text gives `("", "No text extracted (might be scanned image PDF)")` |
| Extractor.TextfulDocument | extractor.py:24-27 | a document with a page yielding non-whitespace text gives non-empty text and an empty error |
| Metadata.ToDict | llm_client.py:14-22 | `response.dict()` is a valid dict whose keys are the eight schema fields in declaration order |
| Metadata.GeminiExtract | llm_client.py:67-74 | the record has the eight schema fields or only "error", and it has "error" exactly when the chain failed |
| Records.Put | app.py:62 | storing into a dict keeps it a valid dict, updates the value, and appends the key only when it is new |
| Records.MergeValues | app.py:62 | in `{**d, **e}` a key of `e` holds its value from `e` and any other key its value from `d` |
| Records.MergeKeys | app.py:62 | in `{**d, **e}` the keys of `d` come first in their order, followed by the keys only `e` has in `e`'s order |
| App.TempDir.Create | app.py:29-31 | creating a temporary file adds one path that was not live |
| App.TempDir.Remove | app.py:60 | removing the temporary file takes exactly its path out of the live set |
| App.ReadPdfText | app.py:33-41 | the reading loop yields the page-text specification, with an open failure or the first raising page turned into the error string |
| App.ReadPagesAppend | app.py:36-41 | reading two runs of pages concatenates their texts unless either run raises, in which case the first exception wins |
| App.RaisingPageDiscardsText | app.py:40-41 | a raising page makes the text exactly `"Error extracting text from " + filename + ": " + msg`, discarding the partial text and ignoring later pages |
| App.BlankPagesAddNothing | app.py:36-39 | a page whose text is None or empty adds nothing |
| App.ReadPagesIsLines | app.py:33-39 | without an exception, the text equals an independent definition: the in-order concatenation of `page_text + "\n"` over the pages with non-empty text |
| App.Fallback | app.py:46-57 | the fallback record lists title, authors, year, journal, objective, methodology, findings, limitations (all None) and error (the message), in that order |
| App.RowLayout | app.py:62 | the row's first key is "filename"; its values are the metadata's, with "filename" added; when the metadata lacks "filename", the row is "filename" followed by the metadata's keys in order |
| App.RowOnExtractorFailure | app.py:44-62 | when the extractor raises, the row is "filename" (the input filename), then the fallback keys: eight None fields and the error message |
| App.GeminiRowNamesItsFile | app.py:62 | with the language-model extractor, every row holds its own filename and then either the eight schema fields or "error" |
| App.FilenameColumnLast | utils.py:29-36 | if `results_to_dataframe` were given a parsed paper's row, its columns would be the eight schema fields followed by "filename", because the canonical list names "file_name"; the app does not call it (app.py:104 uses `pd.DataFrame(results)`, where "filename" stays first) |
| App.FilenameAfterFields | utils.py:33-36 | reordering "filename" followed by the schema fields puts the schema fields first and "filename" last |
| App.ProcessSingleFile | app.py:24-62 | returns the row for the file and leaves the set of live temporary files as it found it |
| App.CapUploads | app.py:75-77 | at most fifty files remain, they are the first ones in upload order, and a list of fifty or fewer is untouched |
| App.Progress | app.py:98-101 | the numerators over the total lie between 1 and the total, strictly increase, and reach the total at the last completion |
| App.RunBatch | app.py:92-101 | one row per submitted file, in completion order, each the row of the file that completed; the reported progress numerators are those of `App.Progress`; no temporary file is left behind |
| App.BatchRowsArePermutation | app.py:92-100 | whatever the completion order, the collected rows are a permutation of the rows in upload order |
| App.RunBatchInUploadOrder | app.py:92-101 | the collection loop with a slot per submitted file: whatever the completion order, the rows come out in upload order, so the table's columns no longer depend on completion order; progress and the temporary files are as in `App.RunBatch` |
| App.CompletionOrderChangesColumns | app.py:92-104 | a parsed paper and a failed extraction give the table different column orders when they complete in opposite orders: "title" or "error" is the second column |
| App.ProcessUploads | app.py:74-104 | caps the uploads; with no upload, processes nothing and builds no table; otherwise collects the rows in completion order (the row of `completion[k]` at position k, a permutation of the rows in upload order) with full progress and builds the table from exactly those rows with `pd.DataFrame(results)` |
| Utils.Present | utils.py:33 | the comprehension keeps exactly the names that are in the pool, without introducing repeats |
| Utils.Absent | utils.py:35 | the comprehension keeps exactly the names that are not in the pool, without introducing repeats |
| Utils.UnionColumns | utils.py:27 | the table's columns have no repeats, include every key of every record, and each comes from some record |
| Utils.FirstHolder | utils.py:27 | for a column, the index of the first record that has it: that record has it and no earlier record does |
| Utils.UnionColumnsFirstSeen | utils.py:27 | the columns are in first-seen order: of two columns, the one whose first holder comes earlier comes first, and two columns first held by the same record keep that record's key order |
| Utils.UnionColumnsPrefix | utils.py:27 | columns already seen keep their place when more records follow |
| Utils.FromRecords | utils.py:26-27 | the columns are the first-seen union of the records' keys; one row per record; every row has exactly the columns; a record's value under each of its keys is kept, and a missing key reads `Null` (NaN in pandas) |
| Utils.OrderedColumnsShape | utils.py:33-36 | the output order is the present canonical columns in canonical order, then every other column in input order |
| Utils.NoCanonicalKeepsOrder | utils.py:36 | with no canonical column present, the table is returned unchanged: the output order is the input order |
| Utils.ColumnsOrdered | utils.py:29-36 | the output starts with canonical columns, as a subsequence of the canonical list, followed by only non-canonical ones, as a subsequence of the input |
| Utils.ColumnsPermuted | utils.py:33-36 | the output columns are a permutation of the input columns: none dropped, added or repeated |
| Utils.ColumnsIdempotent | utils.py:33-36 | reordering the reordered columns changes nothing |
| Utils.ReorderFrameEffect | utils.py:33-36 | reordering a table keeps its rows and every row still holds exactly the columns, now in the order `Utils.OrderedColumns` gives |
| Utils.ResultsToDataframeEffect | utils.py:25-36 | the returned table has the reordered columns and the rows of the table built from the results, with every row holding exactly the columns |

## Left out

- The Streamlit interface: page setup, the uploader, the button, the file list, `st.progress`, `st.error`, the table display and the download button.
- The PDF libraries (pdfplumber, PyPDF2) are foreign code. One abstract document stands in for both: the open fails with a message, or it yields pages whose text is a string, None, or an exception.
- The language model call (`GeminiExtractor`): only the shape of its record is modelled. The metadata extractor in `process_single_file` is an arbitrary function of the text that returns a dict or raises.
- The thread pool's concurrency: completions are modelled as a permutation of the submission indices, taken as a parameter.
- The progress bar's floating-point fraction: the model keeps the integer numerator `i + 1` over the total.
- The bytes written to the temporary file and its name: only the set of live temporary paths is tracked. Failures of the temporary-file write, of `os.remove` and of `future.result()` are not modelled.
- `pages/interactivepdf.py` and `p-a-g-e-s/interactivepdf.py` (the chat over a PDF), `sha256_bytes`, `save_temp_file`, `remove_file_safe` and the CSV export are not part of this model.
- The column order of a table is modelled, but pandas' own data types and index are not. A missing value is written `Null`; pandas fills NaN there, and the two are not told apart.
- Strings are sequences of Unicode code points; no encoding is modelled.

## Findings

| source | as written | input that shows it | evidently intended | confidence | as-written member | corrected member |
|---|---|---|---|---|---|---|
| app.py:92-104 | rows are appended in the order the files complete, and `pd.DataFrame(results)` takes its columns in first-seen order, so the column order depends on completion order | two files, one parsed (keys "filename", "title", ...) and one whose extraction failed (keys "filename", "error"): the second column is "title" if the parsed one completes first and "error" otherwise | the table's column order is the same whatever order the files complete in | not executed | App.CompletionOrderChangesColumns | App.RunBatchInUploadOrder |
