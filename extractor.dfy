/** `extract_text_from_pdf_bytes`: the text of a PDF, or the reason there is
    none, as a (text, error) pair. */
module Extractor {
  import opened Text
  import opened Pdf

  const NoPagesError := "PDF has no pages"
  const NoTextError := "No text extracted (might be scanned image PDF)"
  const ReadFailurePrefix := "Failed to read PDF: "
  const ChunkSeparator := "\n\n"

  /** The list `text_chunks` after the loop over `pages`: a page's text, "" for
      a page whose text is None, and nothing for a page that raises. */
  function Chunks(pages: seq<Page>): seq<string>
  {
    if pages == [] then []
    else
      var before := Chunks(pages[..|pages| - 1]);
      match pages[|pages| - 1]
      case PageText(t) => before + [t]
      case PageNone => before + [""]
      case PageRaises(_) => before
  }

  /** The pair the function returns for a document. Whatever happens, exactly one
      of text and error is non-empty, and the text never starts or ends with
      whitespace. */
  function Extraction(doc: Document): (r: (string, string))
    ensures (r.0 == "") != (r.1 == "")
    ensures r.0 == "" || (!IsSpace(r.0[0]) && !IsSpace(r.0[|r.0| - 1]))
    ensures r.1 == "" <==> doc.Opened? && |doc.pages| > 0 && !AllSpace(Join(ChunkSeparator, Chunks(doc.pages)))
  {
    match doc
    case OpenFails(msg) => ("", ReadFailurePrefix + msg)
    case Opened(pages) =>
      if |pages| == 0 then ("", NoPagesError)
      else
        var full := Strip(Join(ChunkSeparator, Chunks(pages)));
        if full == "" then ("", NoTextError) else (full, "")
  }

  /** The extraction loop: zero pages is an error, a page that raises is
      skipped, the chunks are joined with a blank line and stripped, and an
      empty result is reported as a probable image-only PDF. */
  method ExtractTextFromPdfBytes(doc: Document) returns (text: string, error: string)
    ensures (text, error) == Extraction(doc)
  {
    match doc
    case OpenFails(msg) =>
      return "", ReadFailurePrefix + msg;
    case Opened(pages) =>
      if |pages| == 0 {
        return "", NoPagesError;
      }
      var textChunks: seq<string> := [];
      for i := 0 to |pages|
        invariant textChunks == Chunks(pages[..i])
      {
        assert pages[..i + 1][..i] == pages[..i];
        match pages[i]
        case PageText(t) =>
          textChunks := textChunks + [t];
        case PageNone =>
          textChunks := textChunks + [""];
        case PageRaises(_) =>
      }
      assert pages[..|pages|] == pages;
      var fullText := Strip(Join(ChunkSeparator, textChunks));
      if fullText == "" {
        return "", NoTextError;
      }
      return fullText, "";
  }

  /** The chunks of consecutive page runs are concatenated in page order. */
  lemma {:induction false} ChunksAppend(p: seq<Page>, q: seq<Page>)
    ensures Chunks(p + q) == Chunks(p) + Chunks(q)
    decreases |q|
  {
    if q == [] {
      assert p + q == p;
    } else {
      var q' := q[..|q| - 1];
      assert (p + q)[..|p + q| - 1] == p + q';
      assert (p + q)[|p + q| - 1] == q[|q| - 1];
      ChunksAppend(p, q');
    }
  }

  /** A page that raises contributes nothing, and the pages after it are still
      read: the chunks are those of the document without that page. */
  lemma SkipsRaisingPage(p: seq<Page>, msg: string, q: seq<Page>)
    ensures Chunks(p + [PageRaises(msg)] + q) == Chunks(p + q)
  {
    ChunksAppend(p + [PageRaises(msg)], q);
    ChunksAppend(p, q);
    assert Chunks(p + [PageRaises(msg)]) == Chunks(p);
  }

  /** A page whose text is None contributes an empty chunk, which still takes
      part in the join: between two runs of pages with chunks it leaves two
      separators, that is, four newlines. */
  lemma NonePageKeepsSeparator(p: seq<Page>, q: seq<Page>)
    ensures Chunks(p + [PageNone] + q) == Chunks(p) + [""] + Chunks(q)
    ensures Chunks(p) != [] && Chunks(q) != [] ==>
      Join(ChunkSeparator, Chunks(p + [PageNone] + q))
      == Join(ChunkSeparator, Chunks(p)) + "\n\n\n\n" + Join(ChunkSeparator, Chunks(q))
  {
    ChunksAppend(p + [PageNone], q);
    ChunksAppend(p, [PageNone]);
    assert Chunks([PageNone]) == [""];
    if Chunks(p) != [] && Chunks(q) != [] {
      JoinEmptyChunk(Chunks(p), Chunks(q));
    }
  }

  /** An empty chunk between two non-empty runs of chunks leaves two
      separators side by side. */
  lemma JoinEmptyChunk(a: seq<string>, b: seq<string>)
    requires a != [] && b != []
    ensures Join(ChunkSeparator, a + [""] + b)
         == Join(ChunkSeparator, a) + "\n\n\n\n" + Join(ChunkSeparator, b)
  {
    JoinAppend(ChunkSeparator, a + [""], b);
    JoinAppend(ChunkSeparator, a, [""]);
    assert Join(ChunkSeparator, [""]) == "";
    assert ChunkSeparator + "" + ChunkSeparator == "\n\n\n\n";
  }

  /** Joining all-whitespace chunks with the blank-line separator gives an
      all-whitespace string. */
  lemma {:induction false} JoinAllSpace(chunks: seq<string>)
    requires forall i :: 0 <= i < |chunks| ==> AllSpace(chunks[i])
    ensures AllSpace(Join(ChunkSeparator, chunks))
    decreases |chunks|
  {
    if |chunks| > 1 {
      var init := chunks[..|chunks| - 1];
      JoinAllSpace(init);
      AllSpaceConcat(Join(ChunkSeparator, init), ChunkSeparator);
      AllSpaceConcat(Join(ChunkSeparator, init) + ChunkSeparator, chunks[|chunks| - 1]);
    }
  }

  /** A page that yields some text. */
  predicate HasText(page: Page)
  {
    page.PageText? && !AllSpace(page.text)
  }

  /** A document with pages none of which yields anything but whitespace (a
      scanned, image-only PDF) is reported as such, with empty text. */
  lemma ImageOnlyDocument(pages: seq<Page>)
    requires |pages| > 0
    requires forall i :: 0 <= i < |pages| ==> !HasText(pages[i])
    ensures Extraction(Opened(pages)) == ("", NoTextError)
  {
    ChunksWhitespace(pages);
    JoinAllSpace(Chunks(pages));
  }

  lemma {:induction false} ChunksWhitespace(pages: seq<Page>)
    requires forall i :: 0 <= i < |pages| ==> !HasText(pages[i])
    ensures forall i :: 0 <= i < |Chunks(pages)| ==> AllSpace(Chunks(pages)[i])
    decreases |pages|
  {
    if pages != [] {
      ChunksWhitespace(pages[..|pages| - 1]);
    }
  }

  /** Conversely, a document with a page that yields non-whitespace text is
      extracted successfully: its text is non-empty and the error is empty. */
  lemma TextfulDocument(p: seq<Page>, t: string, q: seq<Page>)
    requires !AllSpace(t)
    ensures var r := Extraction(Opened(p + [PageText(t)] + q)); r.0 != "" && r.1 == ""
  {
    var pages := p + [PageText(t)] + q;
    ChunksAppend(p + [PageText(t)], q);
    ChunksAppend(p, [PageText(t)]);
    var chunks := Chunks(pages);
    assert chunks == Chunks(p) + [t] + Chunks(q);
    var joined := Join(ChunkSeparator, chunks);
    JoinContains(chunks, |Chunks(p)|);
  }

  /** Every chunk's characters appear in the joined text, so a chunk with a
      non-whitespace character makes the joined text not all whitespace. */
  lemma {:induction false} JoinContains(chunks: seq<string>, k: nat)
    requires k < |chunks| && !AllSpace(chunks[k])
    ensures !AllSpace(Join(ChunkSeparator, chunks))
    decreases |chunks|
  {
    var joined := Join(ChunkSeparator, chunks);
    if |chunks| == 1 {
    } else if k == |chunks| - 1 {
      var prefix := Join(ChunkSeparator, chunks[..|chunks| - 1]) + ChunkSeparator;
      var j :| 0 <= j < |chunks[k]| && !IsSpace(chunks[k][j]);
      assert joined[|prefix| + j] == chunks[k][j];
    } else {
      var init := chunks[..|chunks| - 1];
      JoinContains(init, k);
      var j :| 0 <= j < |Join(ChunkSeparator, init)| && !IsSpace(Join(ChunkSeparator, init)[j]);
      assert joined[j] == Join(ChunkSeparator, init)[j];
    }
  }
}
