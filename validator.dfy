/**
 * The result assembly of src/validator.ts around the diagram parser. The
 * parser itself (mermaid.parse) is an external library: it is a parameter
 * here, a function from diagram text to what the call does (resolve, or
 * throw some value).
 */
module Validator {
  import opened Wrappers
  import opened Builtins
  import opened Fences

  /** A value thrown by the parser: an Error object, or anything else (which the validator renders with String). */
  datatype Thrown = ErrorObject(message: string) | OtherValue(rendered: string)

  /** What one call of the parser does. */
  datatype ParseOutcome = Resolved | Threw(thrown: Thrown)

  type Parser = string -> ParseOutcome

  /** validateDiagram's result: `{valid, error?}`. */
  datatype Outcome = Outcome(valid: bool, error: Option<string>)

  /** One diagram's result within a file. */
  datatype ValidationResult = ValidationResult(valid: bool, blockIndex: int, error: Option<string>, lineNumber: Option<int>)

  datatype FileValidationResult = FileValidationResult(
    filePath: string,
    blocks: seq<ValidationResult>,
    totalBlocks: int,
    validBlocks: int,
    invalidBlocks: int)

  /** The text the validator keeps from a thrown value. */
  function ErrorText(t: Thrown): string {
    match t
    case ErrorObject(message) => message
    case OtherValue(rendered) => rendered
  }

  /**
   * validateDiagram: never fails itself. A diagram the parser accepts is
   * valid and carries no error; one it rejects is invalid and carries the
   * thrown value's message, or its string form.
   */
  function ValidateDiagram(parse: Parser, code: string): (r: Outcome)
    ensures r.valid <==> parse(code).Resolved?
    ensures r.valid <==> r.error.None?
    ensures parse(code).Threw? ==> r.error == Some(ErrorText(parse(code).thrown))
  {
    match parse(code)
    case Resolved => Outcome(true, None)
    case Threw(thrown) => Outcome(false, Some(ErrorText(thrown)))
  }

  predicate IsValid(r: ValidationResult) {
    r.valid
  }

  predicate IsInvalid(r: ValidationResult) {
    !r.valid
  }

  /** The result for the block at 0-based position i. */
  function BlockResult(parse: Parser, block: Block, i: nat): ValidationResult {
    var outcome := ValidateDiagram(parse, block.code);
    ValidationResult(outcome.valid, i + 1, outcome.error, Some(block.startLine))
  }

  /** The results of a Markdown file's blocks, in block order. */
  function FileResults(parse: Parser, content: string): (results: seq<ValidationResult>)
    ensures |results| == |ExtractBlocks(content)|
  {
    var blocks := ExtractBlocks(content);
    seq(|blocks|, i requires 0 <= i < |blocks| => BlockResult(parse, blocks[i], i))
  }

  /**
   * One result per extracted block, in order: the i-th is numbered i + 1,
   * carries the block's start line, and is valid exactly when the parser
   * accepts the block's code, with the parser's error text otherwise.
   */
  lemma FileResultsNumbered(parse: Parser, content: string)
    ensures forall i :: 0 <= i < |FileResults(parse, content)| ==>
      var r := FileResults(parse, content)[i];
      var block := ExtractBlocks(content)[i];
      r.blockIndex == i + 1 && r.lineNumber == Some(block.startLine)
      && (r.valid <==> parse(block.code).Resolved?)
      && (parse(block.code).Threw? ==> r.error == Some(ErrorText(parse(block.code).thrown)))
  {
  }

  /**
   * validateFile, given the file's text: one result per extracted block, in
   * order, numbered from 1 and carrying the block's start line; the counts
   * partition the results into valid and invalid ones.
   */
  method ValidateFile(parse: Parser, filePath: string, content: string) returns (r: FileValidationResult)
    ensures r.filePath == filePath
    ensures r.blocks == FileResults(parse, content)
    ensures r.totalBlocks == |r.blocks| == |ExtractBlocks(content)|
    ensures r.validBlocks == |Filter(r.blocks, IsValid)|
    ensures r.invalidBlocks == |Filter(r.blocks, IsInvalid)|
    ensures r.validBlocks + r.invalidBlocks == r.totalBlocks
  {
    var blocks := ExtractMermaidBlocks(content);
    ghost var expected := FileResults(parse, content);
    var results: seq<ValidationResult> := [];
    for i := 0 to |blocks|
      invariant results == expected[..i]
    {
      var block := blocks[i];
      var result := ValidateDiagram(parse, block.code);
      results := results + [ValidationResult(result.valid, i + 1, result.error, Some(block.startLine))];
    }
    assert results == expected;
    var validBlocks := |Filter(results, IsValid)|;
    var invalidBlocks := |Filter(results, IsInvalid)|;
    FilterPartition(results, IsValid, IsInvalid);
    r := FileValidationResult(filePath, results, |blocks|, validBlocks, invalidBlocks);
  }

  /** validateMmdFile, given the file's text: the whole text is one diagram, reported as block 1 at line 1. */
  function ValidateMmdFile(parse: Parser, content: string): (r: ValidationResult)
    ensures r.blockIndex == 1 && r.lineNumber == Some(1)
    ensures r.valid <==> parse(content).Resolved?
    ensures r.error == ValidateDiagram(parse, content).error
  {
    var result := ValidateDiagram(parse, content);
    ValidationResult(result.valid, 1, result.error, Some(1))
  }
}
