# resty-vscode core, modelled in Dafny

resty-vscode is a VS Code extension that runs Resty HTTP tests. The tests are
written as fenced ```` ```yaml ```` blocks inside `.resty` and `.rest` files.
This project models and proves three parts of the extension.

- **The fenced-block scanner and classifier** (`src/providers/yamlBlockParser.ts`),
  module `YamlBlockParser` in `yaml_block_parser.dfy`. It covers:
  - the point query that finds the block around the cursor;
  - the forward scan that collects every valid block;
  - the `test:` line counter;
  - the classifier that turns a block's parsed YAML into a `YamlBlock`.

  The YAML library is a function parameter `load`. It has three outcomes:
  it threw, it produced something that is not an object, or it produced an
  object, given by its set of keys and its `test` value. The type `Loaded`
  admits a `test` value only when the key `test` is present, as a JavaScript
  object does.
- **The test dependency resolver** (`src/utils/testDependencyResolver.ts`),
  class `Resolver.TestDependencyResolver` in `resolver.dfy`. It covers:
  - the name index built by the constructor;
  - the depth-first cycle search;
  - the execution order of a test: the `variables`/`include` blocks before
    it, then its requirements, dependencies first;
  - the whole-file dependency check.

  Two modules hold the pure specification the class is proved against:
  - `DependencyGraph` (`dependency_graph.dfy`): the `requires` graph, chains,
    reachability, and the search `DetectCycle`;
  - `Ordering` (`ordering.dfy`): the dependency-first resolution `Resolve`
    and what a successful resolution guarantees.
- **The validator** (`src/utils/validation.ts`), module `Validation` in
  `validation.dfy`. It checks a block's flags in a fixed order and checks a
  file name's suffix.

Three small modules support them:
- `Types` (`types.dfy`) holds the record and enumeration types of
  `src/types/index.ts`.
- `Text` (`text.dfy`) holds `trim`, `startsWith`, `endsWith`, `split('\n')`
  and `join('\n')`.
- `Wrappers` (`wrappers.dfy`) holds `Option`.

The source's `requires` field of a block is `requiredTests`, because
`requires` is a Dafny keyword.

The resolver keeps its `Map<string, YamlBlock>` as two fields:
- `blocks` maps a name to the block's position in `allBlocks`, so the
  by-reference `indexOf` becomes that position;
- `keyOrder` is the map's insertion order.

On a cycle, `resolveDependencies` may recurse until the JavaScript call
stack overflows and throws a `RangeError`; the cycle search that runs first
keeps it from getting there. The model makes that a precondition: no chain
of `requires` from the root of the calls repeats a name.

## Model

| member | source | states |
|---|---|---|
| Validation.ValidateYamlBlock | src/utils/validation.ts:9-35 | valid iff a block is present with `hasTestKey` and `isValid`; a valid result carries no error or message; otherwise NO_YAML_BLOCK, then NOT_TEST_BLOCK, then INVALID_TEST, in that precedence, each with its own message |
| Validation.ValidateRestyFile | src/utils/validation.ts:40-53 | valid iff the name is some stem followed by ".resty" or ".rest"; otherwise INVALID_FILE with its message |
| Validation.IsRestyFile | src/utils/validation.ts:58-60 | equals the validity flag of `validateRestyFile` for every file name |
| Text.Trim | src/providers/yamlBlockParser.ts:17 | definition of `trim`: strip whitespace from the start, then from the end (proved by Text.TrimSpec) |
| Text.StartsWith | src/providers/yamlBlockParser.ts:18 | definition of `startsWith`: the prefix of the pattern's length is the pattern |
| Text.EndsWith | src/utils/validation.ts:42 | definition of `endsWith`: the suffix of the pattern's length is the pattern (proved by Text.EndsWithIffSuffix) |
| Text.Join | src/providers/yamlBlockParser.ts:34 | definition of `join('\n')`: the lines with a line feed between each two; no lines give "" |
| Text.TrimSpec | src/providers/yamlBlockParser.ts:17 | the trimmed line is an infix of the line with only whitespace cut from either side, and neither end of it is whitespace |
| Text.TrimStartSpec | src/providers/yamlBlockParser.ts:97 | the leading-whitespace strip is a suffix of the line with only whitespace before it |
| Text.TrimEndSpec | src/providers/yamlBlockParser.ts:121 | the trailing-whitespace strip is a prefix of the line with only whitespace after it |
| Text.EndsWithIffSuffix | src/utils/validation.ts:42 | `endsWith(p)` holds exactly when the string is some prefix followed by `p` |
| Text.Split | src/providers/yamlBlockParser.ts:11 | `split('\n')` always yields at least one line |
| Text.SplitNoBreaks | src/providers/yamlBlockParser.ts:11 | no line of a split holds a line feed |
| Text.JoinSplit | src/providers/yamlBlockParser.ts:11 | joining the lines of a split with "\n" gives the text back |
| Text.SplitJoin | src/providers/yamlBlockParser.ts:34 | splitting a "\n"-join of a non-empty list of line-feed-free lines gives the lines back |
| Text.JoinRangeIsJoin | src/providers/yamlBlockParser.ts:126 | joining lines `lo..hi` by walking the indices equals `slice(lo, hi).join('\n')` |
| YamlBlockParser.IsOpener | src/providers/yamlBlockParser.ts:18 | definition of the opening fence test of lines 18, 99 and 123: the trimmed line starts with "```yaml" |
| YamlBlockParser.IsCloser | src/providers/yamlBlockParser.ts:26 | definition of the closing fence test of lines 26, 101 and 125: the trimmed line is exactly "```" |
| YamlBlockParser.HasHttpMethod | src/providers/yamlBlockParser.ts:68-69 | definition of `httpMethods.some(m => m in obj)`: one of get, post, put, patch, delete, head, options is a key |
| YamlBlockParser.ParseYamlContent | src/providers/yamlBlockParser.ts:44-86 | lines and content pass through and `requires` stays unset; a name implies the `test` key; an unparsable or non-object result gives an invalid, unnamed test block without a test key; otherwise `hasTestKey`/`testName` follow the `test` key whatever the type, `include` wins over `variables`, both are always valid, and a test block is valid iff it has a `test` key and an HTTP-method key |
| YamlBlockParser.LastOpener | src/providers/yamlBlockParser.ts:16-22 | the backward search returns the greatest index at or before the cursor whose trimmed line starts with "```yaml", or -1 when there is none |
| YamlBlockParser.FirstCloser | src/providers/yamlBlockParser.ts:25-30 | the forward search returns the least index at or after the cursor whose trimmed line is "```", or -1 when there is none |
| YamlBlockParser.OpenerIsNotCloser | src/providers/yamlBlockParser.ts:18-26 | no line is both an opening and a closing fence |
| YamlBlockParser.FindYamlBlock | src/providers/yamlBlockParser.ts:10-39 | returns a block iff there is an opener at or before the cursor and a closer at or after it; the block runs from that opener to that closer, `start <= cursor <= end`, `start < end`, and it is the classification of the lines strictly between them joined with "\n" |
| YamlBlockParser.CursorBetweenBlocksSpansBoth | src/providers/yamlBlockParser.ts:16-38 | with the cursor on text between two blocks, the point query spans from the first block's opener to the second block's closer |
| YamlBlockParser.InBlock | src/providers/yamlBlockParser.ts:94-106 | definition of the counter's `inYamlBlock` flag after `n` lines: an opener sets it, a closer clears it only when set, any other line keeps it |
| YamlBlockParser.TestCount | src/providers/yamlBlockParser.ts:91-109 | the count after `n` lines is at most `n` |
| YamlBlockParser.CountedLine | src/providers/yamlBlockParser.ts:96-106 | a line adds one iff it is inside an open block and its trimmed form starts with "test:"; fence lines never count |
| YamlBlockParser.OpenerKeepsInBlock | src/providers/yamlBlockParser.ts:99-103 | after an opener, every line up to the next closer is inside a block, so an unterminated trailing block's lines are counted |
| YamlBlockParser.CountTestsInFile | src/providers/yamlBlockParser.ts:91-109 | the loop returns the counter's value over all lines, which is at most the number of lines |
| YamlBlockParser.Pending | src/providers/yamlBlockParser.ts:118-135 | `blockStart` after `n` lines is -1 or an index below `n` |
| YamlBlockParser.Spans | src/providers/yamlBlockParser.ts:118-135 | definition of the opener/closer pairs the scan closes after `n` lines: a closer with a pending start closes the pair and clears the start |
| YamlBlockParser.Keep | src/providers/yamlBlockParser.ts:126-132 | definition of classifying each closed pair's interior and keeping only valid blocks, in order |
| YamlBlockParser.Scan | src/providers/yamlBlockParser.ts:118-136 | definition of `blocks` after `n` lines of the forward scan: the kept blocks of the closed pairs |
| YamlBlockParser.PendingIsOpener | src/providers/yamlBlockParser.ts:123-124 | a pending `blockStart` is an opener followed only by non-fence lines |
| YamlBlockParser.PendingIsQuietOpener | src/providers/yamlBlockParser.ts:123-124 | a later opener replaces the pending one: an opener followed only by non-fence lines is the pending start |
| YamlBlockParser.SpansSound | src/providers/yamlBlockParser.ts:120-135 | every opener/closer pair the scan closes is an opener, then non-fence lines only, then a closer |
| YamlBlockParser.SpansOrdered | src/providers/yamlBlockParser.ts:120-135 | the closed pairs come in strictly increasing, non-overlapping line order |
| YamlBlockParser.SpansComplete | src/providers/yamlBlockParser.ts:120-135 | every opener followed only by non-fence lines up to a closer is closed by the scan |
| YamlBlockParser.KeepSound | src/providers/yamlBlockParser.ts:126-132 | every kept block is valid and is the classification of one closed pair |
| YamlBlockParser.KeepComplete | src/providers/yamlBlockParser.ts:126-132 | every closed pair whose classification is valid is kept |
| YamlBlockParser.KeepOrdered | src/providers/yamlBlockParser.ts:126-132 | keeping blocks of ordered pairs gives blocks in strictly increasing, non-overlapping line order |
| YamlBlockParser.ScanCloses | src/providers/yamlBlockParser.ts:125-134 | a closer with a pending start adds that block if it is valid, and nothing otherwise |
| YamlBlockParser.ScanSkips | src/providers/yamlBlockParser.ts:120-136 | any other line adds no block |
| YamlBlockParser.ScanSound | src/providers/yamlBlockParser.ts:114-139 | every returned block is valid, has `startLine < endLine` with an opener, non-fence lines only and a closer, and is the classification of the lines between |
| YamlBlockParser.ScanOrdered | src/providers/yamlBlockParser.ts:114-139 | the returned blocks are in strictly increasing, non-overlapping line order |
| YamlBlockParser.ScanComplete | src/providers/yamlBlockParser.ts:114-139 | every opener/non-fence/closer stretch whose classification is valid is returned |
| YamlBlockParser.InBlockIffPending | src/providers/yamlBlockParser.ts:94-124 | the counter's in-block flag is set exactly when the full scan has a pending start |
| YamlBlockParser.FindAllYamlBlocks | src/providers/yamlBlockParser.ts:114-139 | returns the scan over the document's lines, of which ScanSound, ScanOrdered and ScanComplete hold |
| YamlBlockParser.ScanLines | src/providers/yamlBlockParser.ts:118-138 | the loop keeps `blockStart` equal to the pending start and `blocks` equal to the scan so far |
| YamlBlockParser.ContentSplitsToInterior | src/providers/yamlBlockParser.ts:126 | for a block with at least one line between its fences, the content splits back into exactly those lines |
| DependencyGraph.DetectCycle | src/utils/testDependencyResolver.ts:144-173 | definition of `detectCircularDependencies`: a name on the path gives the path from its first occurrence plus the name; an unmapped name or one without `requires` gives no cycle; otherwise the first cycle among its requirements, searched with the name pushed on the path |
| DependencyGraph.DetectCycleAll | src/utils/testDependencyResolver.ts:164-169 | definition of the loop over `requires`: the first requirement whose search finds a cycle decides, otherwise no cycle |
| DependencyGraph.IndexOf | src/utils/testDependencyResolver.ts:151 | `path.indexOf(name)` is the first position holding the name |
| DependencyGraph.PushShrinks | src/utils/testDependencyResolver.ts:161-162 | adding a mapped name not yet on the path shrinks the set of unvisited names, so the search terminates |
| DependencyGraph.DetectCycleAllNoCycle | src/utils/testDependencyResolver.ts:164-169 | the loop over `requires` finds no cycle iff no requirement's search finds one |
| DependencyGraph.DetectCycleAllWitness | src/utils/testDependencyResolver.ts:164-169 | a cycle found by the loop is the result of one requirement's search |
| DependencyGraph.ChainAppend | src/utils/testDependencyResolver.ts:162-165 | extending a chain by a requirement of its last name gives a chain |
| DependencyGraph.ChainSuffix | src/utils/testDependencyResolver.ts:151-152 | a suffix of a chain is a chain |
| DependencyGraph.CycleShape | src/utils/testDependencyResolver.ts:149-153 | a reported cycle has at least two names, starts and ends with the same name, follows `requires` edges and repeats no other name |
| DependencyGraph.NoCycleChainsDistinct | src/utils/testDependencyResolver.ts:144-173 | a search that finds no cycle has walked only chains that repeat no name |
| DependencyGraph.CycleMeansRepeat | src/utils/testDependencyResolver.ts:149-153 | a search that finds a cycle exhibits a chain from the root that repeats a name |
| DependencyGraph.NoCycleIffChainsSimple | src/utils/testDependencyResolver.ts:144-173 | the search from a test finds no cycle iff no chain of `requires` from it repeats a name |
| DependencyGraph.SelfRequirement | src/utils/testDependencyResolver.ts:149-153 | a test whose first requirement is itself is reported as the cycle [A, A] |
| DependencyGraph.MutualRequirement | src/utils/testDependencyResolver.ts:149-165 | when A's only requirement is B and B's only requirement is A, the search from A reports [A, B, A] |
| DependencyGraph.ReachesSelf | src/utils/testDependencyResolver.ts:106-139 | every name reaches itself |
| DependencyGraph.ReachesThrough | src/utils/testDependencyResolver.ts:123-124 | what a requirement reaches, the requiring test reaches |
| DependencyGraph.ClosedHoldsChain | src/utils/testDependencyResolver.ts:107-109 | a set closed under `requires` holds the end of every chain from one of its members |
| DependencyGraph.ClosedHoldsReachable | src/utils/testDependencyResolver.ts:107-109 | a set closed under `requires` holds every name reachable from its members |
| DependencyGraph.AllDepsMappedReach | src/utils/testDependencyResolver.ts:74-86 | when every `requires` entry is mapped, every name reachable from a test is mapped |
| DependencyGraph.TestNotOnStack | src/utils/testDependencyResolver.ts:106-139 | without repeating chains, a name being resolved is not among the calls that led to it |
| DependencyGraph.NoReturn | src/utils/testDependencyResolver.ts:123-136 | without repeating chains, what a requirement reaches is not on the chain that led to it, so the target is never added by its own requirements |
| DependencyGraph.ReachesUnmapped | src/utils/testDependencyResolver.ts:111-117 | reaching an unmapped name means not everything reachable is mapped |
| DependencyGraph.FirstUnmapped | src/utils/testDependencyResolver.ts:76-84 | definition of the inner loop: the first requirement that is not a mapped test |
| DependencyGraph.FirstMissing | src/utils/testDependencyResolver.ts:74-86 | definition of the missing-dependency loop: the first test in map order with an unmapped requirement, and that requirement |
| DependencyGraph.FirstCycle | src/utils/testDependencyResolver.ts:89-98 | definition of the cycle loop: the first test in map order whose search finds a cycle, and that cycle |
| DependencyGraph.FirstUnmappedSpec | src/utils/testDependencyResolver.ts:76-84 | the inner loop finds nothing iff every requirement is mapped, and what it finds is an unmapped requirement |
| DependencyGraph.FirstMissingSpec | src/utils/testDependencyResolver.ts:74-86 | the missing-dependency loop finds nothing iff every requirement of every listed test is mapped, and what it finds is an unmapped requirement of a listed test |
| DependencyGraph.FirstCycleSpec | src/utils/testDependencyResolver.ts:89-98 | the cycle loop finds nothing iff no search from a listed test finds a cycle, and what it finds is a listed test and its search's cycle |
| DependencyGraph.FirstMissingFirstCycle | src/utils/testDependencyResolver.ts:72-101 | over a list of every mapped name, the two loops find nothing iff every `requires` entry is mapped and no search finds a cycle |
| Ordering.Resolve | src/utils/testDependencyResolver.ts:106-139 | definition of `resolveDependencies`: an included name adds nothing; an unmapped one is not found; otherwise the requirements are resolved in order, the first error is passed on with no blocks, and the name is added last unless already included |
| Ordering.ResolveAll | src/utils/testDependencyResolver.ts:122-130 | definition of the loop over `requires`: an error returns at once, otherwise the blocks are concatenated and `included` is threaded through |
| Ordering.SettledNone | src/utils/testDependencyResolver.ts:43 | nothing added to a closed set is a settled stretch |
| Ordering.SettledAppend | src/utils/testDependencyResolver.ts:123-128 | two settled stretches in a row make one |
| Ordering.SettledPush | src/utils/testDependencyResolver.ts:133-136 | adding a new name whose requirements are all included keeps the added names distinct, each after its requirements |
| Ordering.ListsAppend | src/utils/testDependencyResolver.ts:128 | concatenating block lists concatenates their name lists |
| Ordering.ResolveStep | src/utils/testDependencyResolver.ts:123-129 | after one requirement is resolved, the partial state holds and the requirement is included |
| Ordering.ResolvePush | src/utils/testDependencyResolver.ts:133-136 | once all requirements are included, adding the test completes its resolution with the test last |
| Ordering.ResolveMissing | src/utils/testDependencyResolver.ts:111-127 | a failed resolution returns no blocks and names an unmapped test the start reaches |
| Ordering.ResolveAllMissing | src/utils/testDependencyResolver.ts:123-127 | a failed requirements loop returns no blocks and names an unmapped test the start reaches |
| Ordering.ResolveOk | src/utils/testDependencyResolver.ts:106-139 | a successful resolution from a closed set adds each name once, after its requirements, only names the test reaches, and the test last when it was new |
| Ordering.ResolveAllOk | src/utils/testDependencyResolver.ts:122-130 | the requirements loop keeps that guarantee across every requirement |
| Ordering.ResolveFromTarget | src/utils/testDependencyResolver.ts:106-139 | from an empty set, resolution fails iff some reachable test is unmapped; otherwise it lists exactly the reachable tests, each once, after its requirements, with the target last |
| Resolver.Named | src/utils/testDependencyResolver.ts:12 | definition of the constructor's filter: a test block with a non-empty name |
| Resolver.NameIndex | src/utils/testDependencyResolver.ts:11-15 | definition of the map after the constructor has seen `n` blocks: each named test's name set to its position, a later block overwriting an earlier one |
| Resolver.KeyOrder | src/utils/testDependencyResolver.ts:11-15 | definition of the map's insertion order: a name joins at its first `set`, and a later `set` keeps its place |
| Resolver.NameIndexSpec | src/utils/testDependencyResolver.ts:11-15 | the index holds exactly the named test blocks (test type, non-empty name), each name mapped to its last block in list order |
| Resolver.KeyOrderSpec | src/utils/testDependencyResolver.ts:11-15 | the insertion order lists every indexed name exactly once |
| Resolver.Ambient | src/utils/testDependencyResolver.ts:46-52 | at most `k` blocks precede index `k` |
| Resolver.AmbientMembers | src/utils/testDependencyResolver.ts:46-52 | a block is among them iff it is a `variables` or `include` block placed before the index |
| Resolver.TargetOnlyLast | src/utils/testDependencyResolver.ts:46-61 | with no test block before the dependency order, the target's block occurs only at its end |
| Resolver.TestDependencyResolver.ByName | src/utils/testDependencyResolver.ts:4 | the name-to-block map has the index's names as keys |
| Resolver.TestDependencyResolver.ByNameNamed | src/utils/testDependencyResolver.ts:11-15 | every mapped block is a test carrying its own name |
| Resolver.TestDependencyResolver.constructor | src/utils/testDependencyResolver.ts:7-16 | keeps the block list and fills the index and its insertion order |
| Resolver.TestDependencyResolver.DetectCircularDependencies | src/utils/testDependencyResolver.ts:144-173 | with `visiting` equal to the names on `path`, computes the search `DetectCycle`, and a search with no cycle hands `visiting` back unchanged |
| Resolver.TestDependencyResolver.ResolveDependencies | src/utils/testDependencyResolver.ts:106-139 | computes `Resolve`: its blocks, the `included` set afterwards, and a not-found error for the first unmapped name |
| Resolver.TestDependencyResolver.Planned | src/utils/testDependencyResolver.ts:24-67 | definition of `resolveExecutionOrder`'s result: unknown target, then a cycle from the search, then a missing requirement, each with no blocks; otherwise the blocks before the target, the resolution of the target, and the target again when `pushTarget` holds |
| Resolver.TestDependencyResolver.ResolveExecutionOrder | src/utils/testDependencyResolver.ts:24-67 | returns the plan with the target pushed a second time, as written |
| Resolver.TestDependencyResolver.ResolveExecutionOrderOnce | src/utils/testDependencyResolver.ts:24-63 | returns the plan without the second push of the target |
| Resolver.TestDependencyResolver.ResolveOrder | src/utils/testDependencyResolver.ts:24-67 | the shared body of both: unknown target, then the cycle search, then the blocks before the target, then the resolution |
| Resolver.TestDependencyResolver.AmbientBefore | src/utils/testDependencyResolver.ts:45-52 | the loop collects the `variables` and `include` blocks before the target's index, in document order |
| Resolver.TestDependencyResolver.PlannedErrors | src/utils/testDependencyResolver.ts:24-58 | an error comes with no blocks; an unknown target is not-found before any cycle check; a reachable cycle is reported with the search's cycle; otherwise it fails iff a reachable name is unmapped, and the name it reports is unmapped and reachable |
| Resolver.TestDependencyResolver.PlannedSplit | src/utils/testDependencyResolver.ts:42-64 | a successful plan is the blocks before the target, then a dependency order of the target, then the optional second push |
| Resolver.TestDependencyResolver.PlannedTwice | src/utils/testDependencyResolver.ts:55-64 | a successful plan as written is the blocks before the target, then every reachable test once, after its requirements, with the target last, then the target again: its last two blocks are both the target's |
| Resolver.TestDependencyResolver.PlannedOnce | src/utils/testDependencyResolver.ts:42-63 | the corrected plan has the same shape without the second push, ends with the target, and no earlier block is the target's |
| Resolver.TestDependencyResolver.ValidateAllDependencies | src/utils/testDependencyResolver.ts:72-101 | reports the first test in insertion order with an unmapped requirement, before any cycle; failing that, the first test whose search finds a cycle; failing that, valid |
| Resolver.TestDependencyResolver.FirstMissingTest | src/utils/testDependencyResolver.ts:74-86 | the missing-dependency loop returns the first test with an unmapped requirement, and that requirement |
| Resolver.TestDependencyResolver.FirstCircularTest | src/utils/testDependencyResolver.ts:89-98 | the cycle loop returns the first test whose search finds a cycle, and that cycle |
| Resolver.TestDependencyResolver.FirstUnmappedOf | src/utils/testDependencyResolver.ts:76-84 | the inner loop returns the first requirement that is not mapped |
| Resolver.TestDependencyResolver.ValidateAllDependenciesMeaning | src/utils/testDependencyResolver.ts:72-101 | the file is valid iff every `requires` entry of every mapped test is mapped and no search from a mapped test finds a cycle |

## Left out

- `trim` removes space, tab, LF, CR, VT and FF only. JavaScript also removes the other Unicode space characters, the line terminators U+2028 and U+2029, and U+FEFF.
- The value of a `test` key is kept as an optional string. A non-string value (a number, a list) is not modelled.
- `yaml.load` (the js-yaml library) is a function parameter `load`. Its result is `Threw`, `NotAnObject`, or an object given by its keys and its `test` value. What the library parses is not modelled.
- `document.getText()`, `document.fileName` and `position.line` become the parameters `text`, `fileName` and `cursor`.
- The user-facing messages are data constructors carrying the names they interpolate. The exact texts and the `' → '` join are not modelled.
- The shared `visiting` and `included` sets are passed in and handed back by value. Aliasing of one set object across calls is not modelled.
- YamlBlockParser.FindYamlBlock: requires the cursor to be a line of the document. The source would index past the end of `lines` otherwise.
- Resolver.TestDependencyResolver.ResolveDependencies: defined only where no chain of `requires` from the root of the calls repeats a name. Otherwise the source may recurse until the call stack overflows and throws a `RangeError`; every caller in the source runs the cycle search first.
- Several loops are separate helper methods, each proved against its own specification function: ScanLines, AmbientBefore, FirstMissingTest, FirstCircularTest and FirstUnmappedOf.
- The forward scan builds each block's content by walking the line indices (JoinRange) instead of copying a slice. Text.JoinRangeIsJoin proves the two equal.
- The recursion of `detectCircularDependencies` and `resolveDependencies` is unbounded in the model. In the source, a deep but acyclic `requires` chain can exceed the JavaScript call stack and throw a `RangeError`; that limit is not modelled.
- The cycle search has exponential worst-case running time, because it keeps no finished set. Running time is not modelled.
- The rest of the extension is not part of this model: child-process execution, the commands, activation, the status bar, result display and error dispatch. These are I/O and UI.

## Findings

| source | as written | input that shows it | evidently intended | confidence | as-written member | corrected member |
|---|---|---|---|---|---|---|
| src/utils/testDependencyResolver.ts:55-64 | `resolveDependencies(target)` already appends the target block (lines 133-136). Line 64 then appends it again, so a successful order ends with the target twice, and an executor given this order would run the target twice. | a single test `A` with no `requires`: the order is `[A, A]` | the target runs once, last, after its requirements, as the comment at line 132 says | not executed | Resolver.TestDependencyResolver.PlannedTwice | Resolver.TestDependencyResolver.PlannedOnce |
