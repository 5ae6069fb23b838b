/**
 * `RestyValidator` (`src/utils/validation.ts`): the checks run before a test
 * is executed. Only the document's file name is consulted.
 */
module Validation {
  import opened Wrappers
  import opened Text
  import opened Types

  /**
   * `validateYamlBlock`: no block, then no `test` key, then an invalid block,
   * in that order of precedence.
   */
  function ValidateYamlBlock(block: Option<YamlBlock>): (r: ValidationResult)
    ensures r.isValid <==> block.Some? && block.value.hasTestKey && block.value.isValid
    ensures r.isValid ==> r.errorType.None? && r.message.None?
    ensures !r.isValid ==> r.errorType.Some? && r.message.Some?
    ensures block.None? ==> r.errorType == Some(NoYamlBlock) && r.message == Some(CursorNotInYamlBlock)
    ensures block.Some? && !block.value.hasTestKey ==>
              r.errorType == Some(NotTestBlock) && r.message == Some(NotARestyTestBlock)
    ensures block.Some? && block.value.hasTestKey && !block.value.isValid ==>
              r.errorType == Some(InvalidTest) && r.message == Some(InvalidYamlOrNoHttpMethod)
  {
    if block.None? then Invalid(NoYamlBlock, CursorNotInYamlBlock)
    else if !block.value.hasTestKey then Invalid(NotTestBlock, NotARestyTestBlock)
    else if !block.value.isValid then Invalid(InvalidTest, InvalidYamlOrNoHttpMethod)
    else Accepted()
  }

  /** `validateRestyFile`: the name must end in ".resty" or ".rest". */
  function ValidateRestyFile(fileName: string): (r: ValidationResult)
    ensures r.isValid <==> exists stem :: fileName == stem + ".resty" || fileName == stem + ".rest"
    ensures r.isValid ==> r.errorType.None? && r.message.None?
    ensures !r.isValid ==> r.errorType == Some(InvalidFile) && r.message == Some(NotARestyFile)
  {
    EndsWithIffSuffix(fileName, ".resty");
    EndsWithIffSuffix(fileName, ".rest");
    if EndsWith(fileName, ".resty") || EndsWith(fileName, ".rest") then Accepted()
    else Invalid(InvalidFile, NotARestyFile)
  }

  /** `isRestyFile`: the same test as `validateRestyFile`, as a bare flag. */
  function IsRestyFile(fileName: string): (r: bool)
    ensures r == ValidateRestyFile(fileName).isValid
  {
    EndsWith(fileName, ".resty") || EndsWith(fileName, ".rest")
  }
}
