/** The shared record and enumeration types of the extension (`src/types/index.ts`). */
module Types {
  import opened Wrappers

  datatype BlockType = Test | Variables | Include

  /**
   * One fenced ```yaml block of a document. `startLine` is the opening fence's
   * line and `endLine` the closing fence's line (0-based). The source's
   * optional `requires` list is the field `requiredTests` here, since
   * `requires` is a keyword of Dafny.
   */
  datatype YamlBlock = YamlBlock(
    startLine: int,
    endLine: int,
    content: string,
    testName: Option<string>,
    isValid: bool,
    hasTestKey: bool,
    blockType: BlockType,
    requiredTests: Option<seq<string>>)

  datatype ErrorType =
    | NoYamlBlock
    | NotTestBlock
    | InvalidTest
    | InvalidFile
    | BinaryNotFound
    | ExecutionFailed
    | CircularDependency
    | MissingDependency
    | DependencyFailed

  /**
   * The user-facing messages, kept as data: the fixed texts by kind, and the
   * ones built from template strings with the names they interpolate.
   */
  datatype Message =
    | CursorNotInYamlBlock
    | NotARestyTestBlock
    | InvalidYamlOrNoHttpMethod
    | NotARestyFile
    | RequiresMissingTest(testName: string, requiredTest: string)
    | CircularInvolving(testName: string, cycle: seq<string>)

  datatype ValidationResult = ValidationResult(
    isValid: bool,
    errorType: Option<ErrorType>,
    message: Option<Message>)

  /** The accepted result: nothing but the flag. */
  function Accepted(): ValidationResult {
    ValidationResult(true, None, None)
  }

  /** A rejected result with its category and message. */
  function Invalid(e: ErrorType, m: Message): ValidationResult {
    ValidationResult(false, Some(e), Some(m))
  }
}
