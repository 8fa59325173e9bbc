/** The abstract view of a PDF document that the PDF libraries give the
    pipeline: the parsing itself happens in foreign code and is not modelled. */
module Pdf {

  /** What one page's `extract_text()` does: returns a string, returns None, or
      raises an exception with a message. */
  datatype Page = PageText(text: string) | PageNone | PageRaises(msg: string)

  /** Opening a document: either the open (or the page listing) raises with a
      message, or it yields the list of pages. */
  datatype Document = OpenFails(msg: string) | Opened(pages: seq<Page>)
}
