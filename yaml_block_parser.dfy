/**
 * `YamlBlockParser` (`src/providers/yamlBlockParser.ts`): finds ```yaml fenced
 * blocks in a document's lines and classifies their content.
 *
 * The YAML library call `yaml.load` is the parameter `load`: all the classifier
 * needs of its answer is whether it threw, whether it produced an object, the
 * object's keys and the value under `test`.
 */
module YamlBlockParser {
  import opened Wrappers
  import opened Text
  import opened Types

  /** What `yaml.load(content)` produced, as the classifier sees it. */
  datatype LoadResult =
    | Threw
    | NotAnObject
    | Object(keys: set<string>, test: Option<string>)

  /** An object has a value under `test` only when it has the key `test`. */
  type Loaded = r: LoadResult | r.Object? && r.test.Some? ==> "test" in r.keys witness Threw

  const OpenFence: string := "```yaml"
  const CloseFence: string := "```"
  const HttpMethods: seq<string> := ["get", "post", "put", "patch", "delete", "head", "options"]

  /** A line whose trimmed form starts with "```yaml". */
  predicate IsOpener(line: string) {
    StartsWith(Trim(line), OpenFence)
  }

  /** A line whose trimmed form is exactly "```". */
  predicate IsCloser(line: string) {
    Trim(line) == CloseFence
  }

  predicate HasHttpMethod(keys: set<string>) {
    exists m :: m in HttpMethods && m in keys
  }

  // ---------------------------------------------------------------------------
  // Classifier
  // ---------------------------------------------------------------------------

  /**
   * `parseYamlContent`. The block kind follows the key precedence include,
   * then variables, then test; `hasTestKey` and `testName` follow the `test`
   * key whatever the kind. Content that does not load to an object gives an
   * invalid, unnamed test block. The parser never fills `requires`.
   */
  function ParseYamlContent(load: string -> Loaded, content: string, startLine: int, endLine: int): (b: YamlBlock)
    ensures b.startLine == startLine && b.endLine == endLine && b.content == content
    ensures b.requiredTests.None?
    ensures b.testName.Some? ==> b.hasTestKey
    ensures !load(content).Object? ==>
              !b.isValid && !b.hasTestKey && b.blockType == Test && b.testName.None?
    ensures load(content).Object? ==>
              && b.hasTestKey == ("test" in load(content).keys)
              && b.testName == load(content).test
              && (b.blockType == Include <==> "include" in load(content).keys)
              && (b.blockType == Variables <==> "include" !in load(content).keys && "variables" in load(content).keys)
              && (b.blockType != Test ==> b.isValid)
              && (b.blockType == Test ==> (b.isValid <==> "test" in load(content).keys && HasHttpMethod(load(content).keys)))
  {
    var parsed := load(content);
    if !parsed.Object? then
      YamlBlock(startLine, endLine, content, None, false, false, Test, None)
    else
      var hasTestKey := "test" in parsed.keys;
      var testName := parsed.test;
      var (blockType, isValid) :=
        if "include" in parsed.keys then (Include, true)
        else if "variables" in parsed.keys then (Variables, true)
        else if hasTestKey then (Test, HasHttpMethod(parsed.keys))
        else (Test, false);
      YamlBlock(startLine, endLine, content, testName, isValid, hasTestKey, blockType, None)
  }

  // ---------------------------------------------------------------------------
  // Point query
  // ---------------------------------------------------------------------------

  /** The greatest index `k <= i` of an opener, or -1. */
  function LastOpener(lines: seq<string>, i: int): (r: int)
    requires -1 <= i < |lines|
    ensures -1 <= r && r <= i
    ensures r >= 0 ==> IsOpener(lines[r])
    ensures forall j :: r < j <= i && 0 <= j ==> !IsOpener(lines[j])
    decreases i + 1
  {
    if i < 0 then -1
    else if IsOpener(lines[i]) then i
    else LastOpener(lines, i - 1)
  }

  /** The least index `k >= i` of a closer, or -1. */
  function FirstCloser(lines: seq<string>, i: nat): (r: int)
    requires i <= |lines|
    ensures r == -1 || (i <= r < |lines| && IsCloser(lines[r]))
    ensures forall j :: i <= j < |lines| && (r < 0 || j < r) ==> !IsCloser(lines[j])
    decreases |lines| - i
  {
    if i == |lines| then -1
    else if IsCloser(lines[i]) then i
    else FirstCloser(lines, i + 1)
  }

  lemma OpenerIsNotCloser(line: string)
    ensures !(IsOpener(line) && IsCloser(line))
  {
  }

  /**
   * `findYamlBlock`: search backward from the cursor line for an opener and,
   * only if one was found, forward from the cursor line for a closer. The
   * backward search does not stop at closers.
   */
  method FindYamlBlock(load: string -> Loaded, text: string, cursor: nat) returns (r: Option<YamlBlock>)
    requires cursor < |Split(text)|
    ensures var lines := Split(text);
            r.Some? <==> LastOpener(lines, cursor) >= 0 && FirstCloser(lines, cursor) >= 0
    ensures var lines := Split(text);
            r.Some? ==>
              var s, e := LastOpener(lines, cursor), FirstCloser(lines, cursor);
              && 0 <= s <= cursor <= e < |lines| && s < e
              && r.value == ParseYamlContent(load, Join(lines[s + 1..e]), s, e)
  {
    var lines := Split(text);
    var blockStart := -1;
    var blockEnd := -1;

    var i: int := cursor;
    while i >= 0
      invariant -1 <= i <= cursor
      invariant LastOpener(lines, i) == LastOpener(lines, cursor)
      invariant blockStart == -1
      decreases i + 1
    {
      if IsOpener(lines[i]) {
        blockStart := i;
        break;
      }
      i := i - 1;
    }
    assert blockStart == LastOpener(lines, cursor);

    if blockStart >= 0 {
      var j: nat := cursor;
      while j < |lines|
        invariant cursor <= j <= |lines|
        invariant FirstCloser(lines, j) == FirstCloser(lines, cursor)
        invariant blockEnd == -1
      {
        if IsCloser(lines[j]) {
          blockEnd := j;
          break;
        }
        j := j + 1;
      }
      assert blockEnd == FirstCloser(lines, cursor);
      if blockEnd == blockStart {
        OpenerIsNotCloser(lines[blockStart]);
      }
    }

    if blockStart >= 0 && blockEnd > blockStart {
      var content := Join(lines[blockStart + 1..blockEnd]);
      r := Some(ParseYamlContent(load, content, blockStart, blockEnd));
    } else {
      r := None;
    }
  }

  /**
   * With the cursor on the text between two blocks, the point query spans
   * from the first block's opener to the second block's closer.
   */
  lemma CursorBetweenBlocksSpansBoth()
    ensures var lines := ["```yaml", "a: 1", "```", "notes", "```yaml", "b: 2", "```"];
            LastOpener(lines, 3) == 0 && FirstCloser(lines, 3) == 6
  {
  }

  // ---------------------------------------------------------------------------
  // Counter
  // ---------------------------------------------------------------------------

  /** The `inYamlBlock` flag of `countTestsInFile` after the first `n` lines. */
  function InBlock(lines: seq<string>, n: nat): bool
    requires n <= |lines|
  {
    if n == 0 then false
    else
      var prev := InBlock(lines, n - 1);
      if IsOpener(lines[n - 1]) then true
      else if IsCloser(lines[n - 1]) && prev then false
      else prev
  }

  /** The `testCount` of `countTestsInFile` after the first `n` lines; never more than `n`. */
  function TestCount(lines: seq<string>, n: nat): (r: nat)
    requires n <= |lines|
    ensures r <= n
  {
    if n == 0 then 0
    else
      var prev := InBlock(lines, n - 1);
      var line := lines[n - 1];
      var counted := !IsOpener(line) && !(IsCloser(line) && prev) && prev && StartsWith(Trim(line), "test:");
      TestCount(lines, n - 1) + (if counted then 1 else 0)
  }

  /** A line counts exactly when it lies inside an open block and its trimmed form starts with "test:"; fence lines never count. */
  lemma CountedLine(lines: seq<string>, i: nat)
    requires i < |lines|
    ensures TestCount(lines, i + 1) == TestCount(lines, i) + 1
            <==> InBlock(lines, i) && StartsWith(Trim(lines[i]), "test:")
    ensures IsOpener(lines[i]) || IsCloser(lines[i]) ==> TestCount(lines, i + 1) == TestCount(lines, i)
  {
    var t := Trim(lines[i]);
    if StartsWith(t, "test:") {
      assert t[0] == 't';
      assert !StartsWith(t, OpenFence) && t != CloseFence;
    }
    if IsOpener(lines[i]) {
      assert t[0] == '`';
    }
  }

  /** Once an opener is seen, the counter stays inside a block until a closer: an unterminated last block is counted to the end. */
  lemma {:induction false} OpenerKeepsInBlock(lines: seq<string>, k: nat, n: nat)
    requires k < n <= |lines|
    requires IsOpener(lines[k])
    requires forall j :: k < j < n ==> !IsCloser(lines[j])
    ensures InBlock(lines, n)
  {
    if n - 1 > k {
      OpenerKeepsInBlock(lines, k, n - 1);
    }
  }

  /** `countTestsInFile`. */
  method CountTestsInFile(text: string) returns (testCount: nat)
    ensures testCount == TestCount(Split(text), |Split(text)|)
    ensures testCount <= |Split(text)|
  {
    var lines := Split(text);
    testCount := 0;
    var inYamlBlock := false;
    var i := 0;
    while i < |lines|
      invariant 0 <= i <= |lines|
      invariant inYamlBlock == InBlock(lines, i)
      invariant testCount == TestCount(lines, i)
    {
      var trimmedLine := Trim(lines[i]);
      if StartsWith(trimmedLine, OpenFence) {
        inYamlBlock := true;
      } else if trimmedLine == CloseFence && inYamlBlock {
        inYamlBlock := false;
      } else if inYamlBlock && StartsWith(trimmedLine, "test:") {
        testCount := testCount + 1;
      }
      i := i + 1;
    }
  }

  // ---------------------------------------------------------------------------
  // Full forward scan
  // ---------------------------------------------------------------------------

  /** How the forward scan reads one line: an opener first, then a closer, else neither. */
  datatype Fence = Open | Close | Other

  function FenceOf(line: string): Fence {
    if IsOpener(line) then Open else if IsCloser(line) then Close else Other
  }

  /** The fence reading of every line. */
  function Fences(lines: seq<string>): (fs: seq<Fence>)
    ensures |fs| == |lines|
  {
    seq(|lines|, i requires 0 <= i < |lines| => FenceOf(lines[i]))
  }

  /**
   * The `blockStart` of `findAllYamlBlocks` after the first `n` lines: the
   * opener still waiting for its closer, or -1.
   */
  function Pending(fs: seq<Fence>, n: nat): (r: int)
    requires n <= |fs|
    ensures -1 <= r < n
  {
    if n == 0 then -1
    else
      var prev := Pending(fs, n - 1);
      if fs[n - 1] == Open then n - 1
      else if fs[n - 1] == Close && prev >= 0 then -1
      else prev
  }

  /** The (opener, closer) line pairs the scan has closed after the first `n` lines. */
  function Spans(fs: seq<Fence>, n: nat): seq<(nat, nat)>
    requires n <= |fs|
  {
    if n == 0 then []
    else
      var prev := Pending(fs, n - 1);
      if fs[n - 1] == Close && prev >= 0 then Spans(fs, n - 1) + [(prev, n - 1)]
      else Spans(fs, n - 1)
  }

  /** An opener at `k` and a closer at `e` with only plain lines between them. */
  ghost predicate IsSpan(fs: seq<Fence>, k: int, e: int) {
    && 0 <= k < e < |fs|
    && fs[k] == Open && fs[e] == Close
    && forall j :: k < j < e ==> fs[j] == Other
  }

  /** A pending opener is an opener with only plain lines after it. */
  lemma {:induction false} PendingIsOpener(fs: seq<Fence>, n: nat)
    requires n <= |fs|
    ensures var r := Pending(fs, n);
            r >= 0 ==> fs[r] == Open && forall j :: r < j < n ==> fs[j] == Other
  {
    if n > 0 {
      PendingIsOpener(fs, n - 1);
    }
  }

  /** The pending opener is the one opener with only plain lines after it. */
  lemma {:induction false} PendingIsQuietOpener(fs: seq<Fence>, k: nat, n: nat)
    requires k < n <= |fs|
    requires fs[k] == Open && forall j :: k < j < n ==> fs[j] == Other
    ensures Pending(fs, n) == k
  {
    if n - 1 > k {
      PendingIsQuietOpener(fs, k, n - 1);
    }
  }

  /** Every closed pair is a span ending before line `n`. */
  lemma {:induction false} SpansSound(fs: seq<Fence>, n: nat)
    requires n <= |fs|
    ensures forall s :: s in Spans(fs, n) ==> s.1 < n && IsSpan(fs, s.0, s.1)
  {
    if n > 0 {
      SpansSound(fs, n - 1);
      PendingIsOpener(fs, n - 1);
    }
  }

  /** The closed pairs come in increasing, non-overlapping order. */
  lemma {:induction false} SpansOrdered(fs: seq<Fence>, n: nat)
    requires n <= |fs|
    ensures forall i, j :: 0 <= i < j < |Spans(fs, n)| ==> Spans(fs, n)[i].1 < Spans(fs, n)[j].0
  {
    if n > 0 {
      SpansOrdered(fs, n - 1);
      var prev := Pending(fs, n - 1);
      var before := Spans(fs, n - 1);
      if fs[n - 1] == Close && prev >= 0 {
        SpansSound(fs, n - 1);
        PendingIsOpener(fs, n - 1);
        forall i | 0 <= i < |before|
          ensures before[i].1 < prev
        {
          assert before[i] in before;
          assert fs[before[i].1] == Close;
        }
      }
    }
  }

  /** Every span is closed by the time the scan has passed its closer. */
  lemma {:induction false} SpansComplete(fs: seq<Fence>, n: nat, k: int, e: int)
    requires n <= |fs|
    requires IsSpan(fs, k, e) && e < n
    ensures (k, e) in Spans(fs, n)
  {
    if e == n - 1 {
      PendingIsQuietOpener(fs, k, n - 1);
    } else {
      SpansComplete(fs, n - 1, k, e);
    }
  }

  /** The block `parseYamlContent` makes of the lines strictly between a pair of fences. */
  function Block(load: string -> Loaded, lines: seq<string>, s: (nat, nat)): YamlBlock
    requires s.0 < s.1 <= |lines|
  {
    ParseYamlContent(load, JoinRange(lines, s.0 + 1, s.1), s.0, s.1)
  }

  ghost predicate Bounded(lines: seq<string>, spans: seq<(nat, nat)>) {
    forall s :: s in spans ==> s.0 < s.1 <= |lines|
  }

  /** The valid blocks of the closed pairs, in order. */
  function Keep(load: string -> Loaded, lines: seq<string>, spans: seq<(nat, nat)>): seq<YamlBlock>
    requires Bounded(lines, spans)
  {
    if spans == [] then []
    else
      var b := Block(load, lines, spans[|spans| - 1]);
      Keep(load, lines, spans[..|spans| - 1]) + (if b.isValid then [b] else [])
  }

  /** A kept block is the valid block of one of the pairs. */
  lemma {:induction false} KeepSound(load: string -> Loaded, lines: seq<string>, spans: seq<(nat, nat)>, b: YamlBlock)
    requires Bounded(lines, spans)
    requires b in Keep(load, lines, spans)
    ensures (b.startLine, b.endLine) in spans
    ensures b.isValid && b == Block(load, lines, (b.startLine, b.endLine))
  {
    var init := spans[..|spans| - 1];
    if b in Keep(load, lines, init) {
      KeepSound(load, lines, init, b);
      assert (b.startLine, b.endLine) in init;
    }
  }

  /** The valid block of every pair is kept. */
  lemma {:induction false} KeepComplete(load: string -> Loaded, lines: seq<string>, spans: seq<(nat, nat)>, s: (nat, nat))
    requires Bounded(lines, spans)
    requires s in spans && Block(load, lines, s).isValid
    ensures Block(load, lines, s) in Keep(load, lines, spans)
  {
    var init := spans[..|spans| - 1];
    if s != spans[|spans| - 1] {
      assert spans == init + [spans[|spans| - 1]];
      KeepComplete(load, lines, init, s);
    }
  }

  /** Blocks of ordered pairs come out in increasing, non-overlapping line order. */
  lemma {:induction false} KeepOrdered(load: string -> Loaded, lines: seq<string>, spans: seq<(nat, nat)>)
    requires Bounded(lines, spans)
    requires forall i, j :: 0 <= i < j < |spans| ==> spans[i].1 < spans[j].0
    ensures var r := Keep(load, lines, spans);
            forall i, j :: 0 <= i < j < |r| ==> r[i].endLine < r[j].startLine
  {
    if spans != [] {
      var init := spans[..|spans| - 1];
      var last := spans[|spans| - 1];
      KeepOrdered(load, lines, init);
      var before := Keep(load, lines, init);
      forall i | 0 <= i < |before|
        ensures before[i].endLine < last.0
      {
        KeepSound(load, lines, init, before[i]);
        var k :| 0 <= k < |init| && init[k] == (before[i].startLine, before[i].endLine);
        assert spans[k] == init[k];
      }
    }
  }

  /** The blocks `findAllYamlBlocks` has kept after the first `n` lines. */
  function Scan(load: string -> Loaded, lines: seq<string>, fs: seq<Fence>, n: nat): seq<YamlBlock>
    requires |fs| == |lines| && n <= |lines|
  {
    SpansSound(fs, n);
    Keep(load, lines, Spans(fs, n))
  }

  /** One step of the scan on a closing fence with a pending opener. */
  lemma ScanCloses(load: string -> Loaded, lines: seq<string>, fs: seq<Fence>, n: nat)
    requires |fs| == |lines| && 0 < n <= |lines|
    requires fs[n - 1] == Close && Pending(fs, n - 1) >= 0
    ensures var b := Block(load, lines, (Pending(fs, n - 1), n - 1));
            Scan(load, lines, fs, n) == Scan(load, lines, fs, n - 1) + (if b.isValid then [b] else [])
  {
  }

  /** One step of the scan on any other line: nothing is added. */
  lemma ScanSkips(load: string -> Loaded, lines: seq<string>, fs: seq<Fence>, n: nat)
    requires |fs| == |lines| && 0 < n <= |lines|
    requires fs[n - 1] != Close || Pending(fs, n - 1) < 0
    ensures Scan(load, lines, fs, n) == Scan(load, lines, fs, n - 1)
  {
  }

  /**
   * Only valid blocks are reported, each one a span of the fence reading `fs`
   * whose content is the text strictly between its fences.
   */
  lemma ScanSound(load: string -> Loaded, lines: seq<string>, fs: seq<Fence>, b: YamlBlock)
    requires |fs| == |lines|
    requires b in Scan(load, lines, fs, |lines|)
    ensures b.isValid && IsSpan(fs, b.startLine, b.endLine)
    ensures b == ParseYamlContent(load, JoinRange(lines, b.startLine + 1, b.endLine), b.startLine, b.endLine)
  {
    SpansSound(fs, |lines|);
    KeepSound(load, lines, Spans(fs, |lines|), b);
  }

  /** The reported blocks are in increasing and non-overlapping line order. */
  lemma ScanOrdered(load: string -> Loaded, lines: seq<string>, fs: seq<Fence>)
    requires |fs| == |lines|
    ensures var r := Scan(load, lines, fs, |lines|);
            forall i, j :: 0 <= i < j < |r| ==> r[i].endLine < r[j].startLine
  {
    SpansSound(fs, |lines|);
    SpansOrdered(fs, |lines|);
    KeepOrdered(load, lines, Spans(fs, |lines|));
    assert Scan(load, lines, fs, |lines|) == Keep(load, lines, Spans(fs, |lines|));
  }

  /** Every span with valid content is reported: no valid block is lost. */
  lemma ScanComplete(load: string -> Loaded, lines: seq<string>, fs: seq<Fence>, k: nat, e: nat)
    requires |fs| == |lines|
    requires IsSpan(fs, k, e)
    requires ParseYamlContent(load, JoinRange(lines, k + 1, e), k, e).isValid
    ensures ParseYamlContent(load, JoinRange(lines, k + 1, e), k, e) in Scan(load, lines, fs, |lines|)
  {
    SpansComplete(fs, |lines|, k, e);
    SpansSound(fs, |lines|);
    KeepComplete(load, lines, Spans(fs, |lines|), (k, e));
  }

  /** The counter's in-block flag and the full scan's pending opener are the same state machine. */
  lemma {:induction false} InBlockIffPending(lines: seq<string>, n: nat)
    requires n <= |lines|
    ensures InBlock(lines, n) <==> Pending(Fences(lines), n) >= 0
  {
    if n > 0 {
      InBlockIffPending(lines, n - 1);
      OpenerIsNotCloser(lines[n - 1]);
    }
  }

  /** `findAllYamlBlocks`: split the text into lines and scan them. */
  method FindAllYamlBlocks(load: string -> Loaded, text: string) returns (blocks: seq<YamlBlock>)
    ensures var lines := Split(text);
            blocks == Scan(load, lines, Fences(lines), |lines|)
  {
    var lines := Split(text);
    blocks := ScanLines(load, lines);
  }

  /** The line loop of `findAllYamlBlocks`. */
  method ScanLines(load: string -> Loaded, lines: seq<string>) returns (blocks: seq<YamlBlock>)
    ensures blocks == Scan(load, lines, Fences(lines), |lines|)
  {
    ghost var fs := Fences(lines);
    blocks := [];
    var blockStart := -1;
    var i := 0;
    while i < |lines|
      invariant 0 <= i <= |lines|
      invariant blockStart == Pending(fs, i)
      invariant blocks == Scan(load, lines, fs, i)
    {
      assert fs[i] == FenceOf(lines[i]);
      if IsOpener(lines[i]) {
        ScanSkips(load, lines, fs, i + 1);
        blockStart := i;
      } else if IsCloser(lines[i]) && blockStart >= 0 {
        var block := Block(load, lines, (blockStart, i));
        ScanCloses(load, lines, fs, i + 1);
        if block.isValid {
          blocks := blocks + [block];
        }
        blockStart := -1;
      } else {
        ScanSkips(load, lines, fs, i + 1);
      }
      i := i + 1;
    }
  }

  /** For a block with at least one interior line, the content handed to the YAML loader splits back into those lines. */
  lemma ContentSplitsToInterior(text: string, k: int, e: int)
    requires 0 <= k && k + 1 < e <= |Split(text)|
    ensures Split(Join(Split(text)[k + 1..e])) == Split(text)[k + 1..e]
  {
    SplitNoBreaks(text);
    SplitJoin(Split(text)[k + 1..e]);
  }
}
