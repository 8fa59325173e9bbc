/** The record shape returned by the language-model metadata extractor
    (`PaperMetadata`, `GeminiExtractor.extract`). The remote call is not
    modelled: its outcome is a parameter. */
module Metadata {
  import opened Wrappers
  import opened Records

  /** The eight optional string fields of `PaperMetadata`, in declaration order. */
  datatype PaperMetadata = PaperMetadata(
    title: Option<string>,
    authors: Option<string>,
    publication_year: Option<string>,
    journal_or_conference: Option<string>,
    research_objective: Option<string>,
    methodology: Option<string>,
    key_findings: Option<string>,
    limitations: Option<string>)

  const PaperFields: seq<string> := [
    "title", "authors", "publication_year", "journal_or_conference",
    "research_objective", "methodology", "key_findings", "limitations"]

  const ExtractionFailedPrefix := "LLM extraction failed: "

  /** What the prompt-model-parser chain does: parses a `PaperMetadata`, or
      raises with a message (network, authentication, timeout or schema error). */
  datatype ChainOutcome = Parsed(meta: PaperMetadata) | ChainFails(msg: string)

  function CellOf(o: Option<string>): Cell
  {
    match o
    case Some(s) => Str(s)
    case None => Null
  }

  /** `response.dict()`: the eight fields under their declared names. */
  function ToDict(m: PaperMetadata): (d: Dict)
    ensures d.Valid() && d.keys == PaperFields
  {
    Dict(PaperFields, map[
      "title" := CellOf(m.title),
      "authors" := CellOf(m.authors),
      "publication_year" := CellOf(m.publication_year),
      "journal_or_conference" := CellOf(m.journal_or_conference),
      "research_objective" := CellOf(m.research_objective),
      "methodology" := CellOf(m.methodology),
      "key_findings" := CellOf(m.key_findings),
      "limitations" := CellOf(m.limitations)])
  }

  /** `GeminiExtractor.extract`: never raises; a failed chain becomes a record
      whose only key is "error". Either way the record is a valid dict whose
      keys are the schema's fields or just "error". */
  function GeminiExtract(outcome: ChainOutcome): (d: Dict)
    ensures d.Valid()
    ensures d.keys == PaperFields || d.keys == ["error"]
    ensures outcome.ChainFails? <==> "error" in d.values
  {
    match outcome
    case Parsed(m) => ToDict(m)
    case ChainFails(msg) => Dict(["error"], map["error" := Str(ExtractionFailedPrefix + msg)])
  }
}
