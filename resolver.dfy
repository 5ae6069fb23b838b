/**
 * `TestDependencyResolver` (`src/utils/testDependencyResolver.ts`): the
 * blocks of one document, indexed by test name, and the operations that order
 * a test after its requirements and check the `requires` graph as a whole.
 *
 * The source's `Map<string, YamlBlock>` is kept as `blocks`, a map from a
 * test name to the position of its block in `allBlocks` (which also gives the
 * `indexOf` of that block), and `keyOrder`, the map's insertion order.
 */
module Resolver {
  import opened Wrappers
  import opened Types
  import opened DependencyGraph
  import opened Ordering

  /** A block the constructor indexes: a test with a non-empty name. */
  predicate Named(b: YamlBlock) {
    b.blockType == Test && b.testName.Some? && b.testName.value != ""
  }

  /** The name index after the constructor has seen `bs[..n]`. */
  function NameIndex(bs: seq<YamlBlock>, n: nat): (r: map<string, nat>)
    requires n <= |bs|
  {
    if n == 0 then map[]
    else
      var b := bs[n - 1];
      var r := NameIndex(bs, n - 1);
      if Named(b) then r[b.testName.value := n - 1] else r
  }

  /**
   * `r` indexes every named test among `bs[..n]`, by its last block, and
   * nothing else.
   */
  ghost predicate IndexesLast(bs: seq<YamlBlock>, n: nat, r: map<string, nat>)
    requires n <= |bs|
  {
    && (forall k :: k in r ==> r[k] < n && Named(bs[r[k]]) && bs[r[k]].testName.value == k)
    && (forall k, j :: k in r && r[k] < j < n ==> !(Named(bs[j]) && bs[j].testName.value == k))
    && (forall j :: 0 <= j < n && Named(bs[j]) ==> bs[j].testName.value in r)
  }

  lemma {:induction false} NameIndexSpec(bs: seq<YamlBlock>, n: nat)
    requires n <= |bs|
    ensures IndexesLast(bs, n, NameIndex(bs, n))
  {
    if n > 0 {
      NameIndexSpec(bs, n - 1);
      var b := bs[n - 1];
      var prev := NameIndex(bs, n - 1);
      var r := NameIndex(bs, n);
      forall k | k in r
        ensures r[k] < n && Named(bs[r[k]]) && bs[r[k]].testName.value == k
      {
        if Named(b) && k == b.testName.value {
          assert r[k] == n - 1 && bs[n - 1] == b;
        } else {
          assert k in prev && r[k] == prev[k];
        }
      }
    }
  }

  /** The order in which names were first inserted into the index. */
  function KeyOrder(bs: seq<YamlBlock>, n: nat): (r: seq<string>)
    requires n <= |bs|
  {
    if n == 0 then []
    else
      var b := bs[n - 1];
      var r := KeyOrder(bs, n - 1);
      if Named(b) && b.testName.value !in r then r + [b.testName.value] else r
  }

  /** The insertion order lists every indexed name once. */
  lemma {:induction false} KeyOrderSpec(bs: seq<YamlBlock>, n: nat)
    requires n <= |bs|
    ensures Distinct(KeyOrder(bs, n)) && Elems(KeyOrder(bs, n)) == NameIndex(bs, n).Keys
  {
    if n > 0 {
      KeyOrderSpec(bs, n - 1);
      var r := KeyOrder(bs, n - 1);
      var b := bs[n - 1];
      if Named(b) && b.testName.value !in r {
        var r' := r + [b.testName.value];
        assert Elems(r') == Elems(r) + {b.testName.value};
        forall i, j | 0 <= i < j < |r'|
          ensures r'[i] != r'[j]
        {
          assert r'[i] == r[i];
          if j < |r| {
            assert r'[j] == r[j];
          }
        }
      }
    }
  }

  /** The `variables` and `include` blocks among `bs[..k]`, in document order. */
  function Ambient(bs: seq<YamlBlock>, k: nat): (r: seq<YamlBlock>)
    requires k <= |bs|
    ensures |r| <= k
  {
    if k == 0 then []
    else
      var b := bs[k - 1];
      Ambient(bs, k - 1) + (if b.blockType == Variables || b.blockType == Include then [b] else [])
  }

  /** A block is ambient before `k` exactly when it is a non-test block placed before `k`. */
  lemma {:induction false} AmbientMembers(bs: seq<YamlBlock>, k: nat, x: YamlBlock)
    requires k <= |bs|
    ensures x in Ambient(bs, k) <==> exists j :: 0 <= j < k && bs[j] == x && x.blockType != Test
  {
    if k > 0 {
      AmbientMembers(bs, k - 1, x);
      if bs[k - 1] == x && x.blockType != Test {
        assert x in Ambient(bs, k);
      }
    }
  }

  datatype ResolveError =
    | TestNotFound(name: string)
    | RequiredTestNotFound(name: string)
    | CircularDependencyFound(cycle: seq<string>)

  /** `{ blocks, error? }`: an error comes with no blocks. */
  datatype Resolution = Resolution(blocks: seq<YamlBlock>, error: Option<ResolveError>)

  /**
   * When no block before the dependency part is a test and each test block
   * carries its own name, the target's block appears only at the end.
   */
  lemma TargetOnlyLast(g: Graph, t: string, amb: seq<YamlBlock>, deps: seq<YamlBlock>, names: seq<string>)
    requires forall x :: x in amb ==> x.blockType != Test
    requires forall n :: n in g ==> g[n].testName == Some(n)
    requires t in g && g[t].blockType == Test
    requires DependencyOrder(g, t, deps, names)
    ensures forall i :: 0 <= i < |amb + deps| - 1 ==> (amb + deps)[i] != g[t]
  {
  }

  class TestDependencyResolver {
    var allBlocks: seq<YamlBlock>
    var blocks: map<string, nat>
    var keyOrder: seq<string>

    ghost predicate Valid()
      reads this
    {
      && blocks == NameIndex(allBlocks, |allBlocks|)
      && keyOrder == KeyOrder(allBlocks, |allBlocks|)
      && (forall n :: n in blocks ==> blocks[n] < |allBlocks|)
    }

    /** The index as the source holds it: test name to block. */
    function ByName(): (g: Graph)
      reads this
      requires Valid()
      ensures g.Keys == blocks.Keys
    {
      NameIndexSpec(allBlocks, |allBlocks|);
      map n | n in blocks :: allBlocks[blocks[n]]
    }

    /** Each name maps to a test block that carries that name. */
    lemma ByNameNamed()
      requires Valid()
      ensures forall n :: n in ByName() ==> ByName()[n].blockType == Test && ByName()[n].testName == Some(n)
    {
      NameIndexSpec(allBlocks, |allBlocks|);
    }

    /** Indexes every named test by its name; a later block with the same name replaces an earlier one. */
    constructor(bs: seq<YamlBlock>)
      ensures allBlocks == bs && Valid()
    {
      var index: map<string, nat> := map[];
      var order: seq<string> := [];
      var i := 0;
      while i < |bs|
        invariant 0 <= i <= |bs|
        invariant index == NameIndex(bs, i) && order == KeyOrder(bs, i)
      {
        var block := bs[i];
        KeyOrderSpec(bs, i);
        if block.blockType == Test && block.testName.Some? && block.testName.value != "" {
          if block.testName.value !in index {
            order := order + [block.testName.value];
          }
          index := index[block.testName.value := i];
        }
        i := i + 1;
      }
      NameIndexSpec(bs, |bs|);
      allBlocks := bs;
      blocks := index;
      keyOrder := order;
    }

    /**
     * `detectCircularDependencies(testName, visiting, path)`, with the shared
     * `visiting` set passed in and handed back. It computes the depth-first
     * search `DetectCycle`, and a search that finds no cycle leaves `visiting`
     * as it found it.
     */
    method DetectCircularDependencies(testName: string, visiting: set<string>, path: seq<string>)
        returns (r: CycleCheck, visiting': set<string>)
      requires Valid()
      requires visiting == Elems(path)
      ensures r == DetectCycle(ByName(), testName, path)
      ensures r.NoCycle? ==> visiting' == visiting
      decreases blocks.Keys - visiting
    {
      if testName in visiting {
        var cycleStart := IndexOf(path, testName);
        return Cycle(path[cycleStart..] + [testName]), visiting;
      }
      if testName !in blocks || allBlocks[blocks[testName]].requiredTests.None? {
        return NoCycle, visiting;
      }
      ghost var g := ByName();
      var deps := allBlocks[blocks[testName]].requiredTests.value;
      PushShrinks(g, path, testName);
      visiting' := visiting + {testName};
      var newPath := path + [testName];
      assert visiting' == Elems(newPath);
      var i := 0;
      while i < |deps|
        invariant 0 <= i <= |deps|
        invariant visiting' == Elems(newPath)
        invariant DetectCycleAll(g, deps[i..], newPath) == DetectCycle(g, testName, path)
      {
        var result;
        result, visiting' := DetectCircularDependencies(deps[i], visiting', newPath);
        assert deps[i..][0] == deps[i] && deps[i..][1..] == deps[i + 1..];
        if result.Cycle? {
          return result, visiting';
        }
        i := i + 1;
      }
      visiting' := visiting' - {testName};
      return NoCycle, visiting';
    }

    /**
     * `resolveDependencies(testName, included)`, with the shared `included`
     * set passed in and handed back; it computes `Resolve`. The ghost `stack`
     * is the chain of calls that led here, and the search runs only where no
     * chain from its root repeats a name, as the cycle check before it has
     * established.
     */
    method ResolveDependencies(testName: string, included: set<string>, ghost stack: seq<string>)
        returns (r: Resolution, included': set<string>)
      requires Valid()
      requires Chain(ByName(), stack + [testName]) && ChainsSimple(ByName(), (stack + [testName])[0])
      ensures var w := Resolve(ByName(), testName, included, stack);
              && r.blocks == w.blocks && included' == w.included
              && r.error == if w.missing.Some? then Some(RequiredTestNotFound(w.missing.value)) else None
      decreases blocks.Keys - Elems(stack)
    {
      ghost var g := ByName();
      if testName in included {
        return Resolution([], None), included;
      }
      if testName !in blocks {
        return Resolution([], Some(RequiredTestNotFound(testName))), included;
      }
      var block := allBlocks[blocks[testName]];
      ghost var here := stack + [testName];
      TestNotOnStack(g, stack, testName);
      PushShrinks(g, stack, testName);

      var resolvedBlocks: seq<YamlBlock> := [];
      ghost var names: seq<string> := [];
      included' := included;
      var deps := if block.requiredTests.Some? then block.requiredTests.value else [];
      assert deps == Deps(g, testName) && here[|here| - 1] == testName;
      if block.requiredTests.Some? {
        var i := 0;
        while i < |deps|
          invariant 0 <= i <= |deps|
          invariant ResolveAll(g, deps[i..], included', resolvedBlocks, names, here) == ResolveAll(g, deps, included, [], [], here)
        {
          var d := deps[i];
          ChainAppend(g, here, d);
          assert (here + [d])[0] == here[0];
          assert deps[i..][0] == d && deps[i..][1..] == deps[i + 1..];
          var depResult, inc' := ResolveDependencies(d, included', here);
          if depResult.error.Some? {
            return depResult, inc';
          }
          ghost var w := Resolve(g, d, included', here);
          resolvedBlocks := resolvedBlocks + depResult.blocks;
          names := names + w.names;
          included' := inc';
          i := i + 1;
        }
      }
      if testName !in included' {
        resolvedBlocks := resolvedBlocks + [block];
        included' := included' + {testName};
      }
      return Resolution(resolvedBlocks, None), included';
    }

    /**
     * What `resolveExecutionOrder(target)` returns. An unknown target and a
     * cycle reachable from it are reported with no blocks, and so is a
     * missing requirement; otherwise the `variables` and `include` blocks
     * before the target come first, then the resolved requirements with the
     * target last, and then, when `pushTarget` holds, the target once more.
     */
    ghost function Planned(target: string, pushTarget: bool): Resolution
      reads this
      requires Valid()
    {
      var g := ByName();
      if target !in blocks then Resolution([], Some(TestNotFound(target)))
      else
        match DetectCycle(g, target, [])
        case Cycle(c) => Resolution([], Some(CircularDependencyFound(c)))
        case NoCycle =>
          NoCycleIffChainsSimple(g, target);
          assert [] + [target] == [target];
          var w := Resolve(g, target, {}, []);
          if w.missing.Some? then Resolution([], Some(RequiredTestNotFound(w.missing.value)))
          else Resolution(Ambient(allBlocks, blocks[target]) + w.blocks + (if pushTarget then [g[target]] else []), None)
    }

    /** `resolveExecutionOrder(target)` as written, ending with a second push of the target. */
    method ResolveExecutionOrder(target: string) returns (r: Resolution)
      requires Valid()
      ensures r == Planned(target, true)
    {
      r := ResolveOrder(target, true);
    }

    /** `resolveExecutionOrder(target)` without its final push of the target, which the resolution has already placed last. */
    method ResolveExecutionOrderOnce(target: string) returns (r: Resolution)
      requires Valid()
      ensures r == Planned(target, false)
    {
      r := ResolveOrder(target, false);
    }

    /** The steps shared by both forms of `resolveExecutionOrder`; `pushTarget` is the final push of the target. */
    method ResolveOrder(target: string, pushTarget: bool) returns (r: Resolution)
      requires Valid()
      ensures r == Planned(target, pushTarget)
    {
      if target !in blocks {
        return Resolution([], Some(TestNotFound(target)));
      }
      var targetBlock := allBlocks[blocks[target]];
      ghost var g := ByName();

      var circularCheck, _ := DetectCircularDependencies(target, {}, []);
      if circularCheck.Cycle? {
        return Resolution([], Some(CircularDependencyFound(circularCheck.cycle)));
      }

      var executionOrder := AmbientBefore(blocks[target]);

      NoCycleIffChainsSimple(g, target);
      assert [] + [target] == [target];
      var dependencyOrder, _ := ResolveDependencies(target, {}, []);
      if dependencyOrder.error.Some? {
        return Resolution([], dependencyOrder.error);
      }
      executionOrder := executionOrder + dependencyOrder.blocks;
      if pushTarget {
        executionOrder := executionOrder + [targetBlock];
      }
      return Resolution(executionOrder, None);
    }

    /** Step 1 of `resolveExecutionOrder`: the `variables` and `include` blocks before position `targetBlockIndex`. */
    method AmbientBefore(targetBlockIndex: nat) returns (executionOrder: seq<YamlBlock>)
      requires targetBlockIndex <= |allBlocks|
      ensures executionOrder == Ambient(allBlocks, targetBlockIndex)
    {
      executionOrder := [];
      var i := 0;
      while i < targetBlockIndex
        invariant 0 <= i <= targetBlockIndex
        invariant executionOrder == Ambient(allBlocks, i)
      {
        var block := allBlocks[i];
        if block.blockType == Variables || block.blockType == Include {
          executionOrder := executionOrder + [block];
        }
        i := i + 1;
      }
    }

    /**
     * The errors of `resolveExecutionOrder`: an unknown target, then a cycle
     * reachable from it, then a test it reaches that is not in the file;
     * every error comes with no blocks, and the last one occurs exactly when
     * not every test the target reaches is mapped.
     */
    lemma PlannedErrors(target: string, pushTarget: bool)
      requires Valid()
      ensures var r := Planned(target, pushTarget);
              && (r.error.Some? ==> r.blocks == [])
              && (target !in blocks ==> r.error == Some(TestNotFound(target)))
              && (target in blocks && DetectCycle(ByName(), target, []).Cycle? ==>
                    r.error == Some(CircularDependencyFound(DetectCycle(ByName(), target, []).cycle)))
              && (target in blocks && DetectCycle(ByName(), target, []).NoCycle? ==>
                    (r.error.None? <==> AllReachableMapped(ByName(), target)))
              && (r.error.Some? && r.error.value.RequiredTestNotFound? ==>
                    r.error.value.name !in blocks && Reaches(ByName(), target, r.error.value.name))
    {
      var g := ByName();
      if target in blocks && DetectCycle(g, target, []).NoCycle? {
        NoCycleIffChainsSimple(g, target);
        ResolveFromTarget(g, target);
      }
    }

    /**
     * A successful plan is the ambient blocks, then the dependency order of
     * the target, then the optional final push; the order is returned.
     */
    lemma PlannedSplit(target: string, pushTarget: bool) returns (deps: seq<YamlBlock>, names: seq<string>)
      requires Valid() && Planned(target, pushTarget).error.None?
      ensures target in blocks
      ensures Planned(target, pushTarget).blocks
                == Ambient(allBlocks, blocks[target]) + deps + (if pushTarget then [ByName()[target]] else [])
      ensures DependencyOrder(ByName(), target, deps, names)
    {
      var g := ByName();
      NoCycleIffChainsSimple(g, target);
      ResolveFromTarget(g, target);
      assert [] + [target] == [target];
      var w := Resolve(g, target, {}, []);
      deps, names := w.blocks, w.names;
    }

    /**
     * A successful `resolveExecutionOrder(target)`: the `variables` and
     * `include` blocks before the target in document order, then every test
     * the target reaches, each once and after its requirements, with the
     * target last, and then the target's block once more, so that the last
     * two blocks are the same.
     */
    lemma PlannedTwice(target: string)
      requires Valid()
      ensures var r := Planned(target, true);
              r.error.None? ==>
                && target in blocks
                && (exists deps, names :: r.blocks == Ambient(allBlocks, blocks[target]) + deps + [ByName()[target]]
                                          && DependencyOrder(ByName(), target, deps, names))
                && |r.blocks| >= 2 && r.blocks[|r.blocks| - 2] == r.blocks[|r.blocks| - 1] == ByName()[target]
    {
      if Planned(target, true).error.None? {
        var deps, names := PlannedSplit(target, true);
        var amb := Ambient(allBlocks, blocks[target]);
        var x := ByName()[target];
        assert deps[|deps| - 1] == x;
        var r := amb + deps + [x];
        assert r[|r| - 2] == deps[|deps| - 1];
        assert Planned(target, true).blocks == r && DependencyOrder(ByName(), target, deps, names);
      }
    }

    /**
     * The corrected order: the blocks before the target, then every test the
     * target reaches, each once and after its requirements, with the target
     * last, and no earlier block is the target's.
     */
    lemma PlannedOnce(target: string)
      requires Valid()
      ensures var r := Planned(target, false);
              r.error.None? ==>
                && target in blocks
                && (exists deps, names :: r.blocks == Ambient(allBlocks, blocks[target]) + deps
                                          && DependencyOrder(ByName(), target, deps, names))
                && |r.blocks| >= 1 && r.blocks[|r.blocks| - 1] == ByName()[target]
                && forall i :: 0 <= i < |r.blocks| - 1 ==> r.blocks[i] != ByName()[target]
    {
      if Planned(target, false).error.None? {
        var deps, names := PlannedSplit(target, false);
        var amb := Ambient(allBlocks, blocks[target]);
        assert amb + deps + [] == amb + deps;
        ByNameNamed();
        forall x: YamlBlock | x in amb
          ensures x.blockType != Test
        {
          AmbientMembers(allBlocks, blocks[target], x);
        }
        TargetOnlyLast(ByName(), target, amb, deps, names);
      }
    }

    /**
     * `validateAllDependencies`: the first test, in the map's insertion
     * order, that requires an unmapped name is reported; failing that, the
     * first test from which the search finds a cycle; failing that, the file
     * is valid.
     */
    method ValidateAllDependencies() returns (r: ValidationResult)
      requires Valid()
      ensures FirstMissing(ByName(), keyOrder).Some? ==>
                var (t, d) := FirstMissing(ByName(), keyOrder).value;
                r == Invalid(MissingDependency, RequiresMissingTest(t, d))
      ensures FirstMissing(ByName(), keyOrder).None? && FirstCycle(ByName(), keyOrder).Some? ==>
                var (t, c) := FirstCycle(ByName(), keyOrder).value;
                r == Invalid(CircularDependency, CircularInvolving(t, c))
      ensures FirstMissing(ByName(), keyOrder).None? && FirstCycle(ByName(), keyOrder).None? ==> r == Accepted()
    {
      var missing := FirstMissingTest();
      if missing.Some? {
        return Invalid(MissingDependency, RequiresMissingTest(missing.value.0, missing.value.1));
      }
      var circular := FirstCircularTest();
      if circular.Some? {
        return Invalid(CircularDependency, CircularInvolving(circular.value.0, circular.value.1));
      }
      return Accepted();
    }

    /** The first loop of `validateAllDependencies`: the first test, in insertion order, requiring an unmapped name. */
    method FirstMissingTest() returns (r: Option<(string, string)>)
      requires Valid()
      ensures r == FirstMissing(ByName(), keyOrder)
    {
      ghost var g := ByName();
      KeyOrderSpec(allBlocks, |allBlocks|);
      var i := 0;
      while i < |keyOrder|
        invariant 0 <= i <= |keyOrder|
        invariant FirstMissing(g, keyOrder[i..]) == FirstMissing(g, keyOrder)
      {
        var testName := keyOrder[i];
        assert testName in Elems(keyOrder);
        var block := allBlocks[blocks[testName]];
        assert keyOrder[i..][0] == testName && keyOrder[i..][1..] == keyOrder[i + 1..];
        if block.requiredTests.Some? {
          var missing := FirstUnmappedOf(block.requiredTests.value);
          if missing.Some? {
            return Some((testName, missing.value));
          }
        }
        i := i + 1;
      }
      return None;
    }

    /** The second loop of `validateAllDependencies`: the first test, in insertion order, from which a cycle is found. */
    method FirstCircularTest() returns (r: Option<(string, seq<string>)>)
      requires Valid()
      ensures r == FirstCycle(ByName(), keyOrder)
    {
      ghost var g := ByName();
      var i := 0;
      while i < |keyOrder|
        invariant 0 <= i <= |keyOrder|
        invariant FirstCycle(g, keyOrder[i..]) == FirstCycle(g, keyOrder)
      {
        var testName := keyOrder[i];
        assert keyOrder[i..][0] == testName && keyOrder[i..][1..] == keyOrder[i + 1..];
        var circularCheck, _ := DetectCircularDependencies(testName, {}, []);
        if circularCheck.Cycle? {
          return Some((testName, circularCheck.cycle));
        }
        i := i + 1;
      }
      return None;
    }

    /** The inner loop of `validateAllDependencies`: the first of `deps` that names no test of the file. */
    method FirstUnmappedOf(deps: seq<string>) returns (missing: Option<string>)
      requires Valid()
      ensures missing == FirstUnmapped(ByName(), deps)
    {
      ghost var g := ByName();
      var j := 0;
      while j < |deps|
        invariant 0 <= j <= |deps|
        invariant FirstUnmapped(g, deps[j..]) == FirstUnmapped(g, deps)
      {
        assert deps[j..][0] == deps[j] && deps[j..][1..] == deps[j + 1..];
        if deps[j] !in blocks {
          return Some(deps[j]);
        }
        j := j + 1;
      }
      return None;
    }

    /**
     * The file is accepted exactly when every requirement names a test of the
     * file and no search from any test finds a cycle.
     */
    lemma ValidateAllDependenciesMeaning()
      requires Valid()
      ensures FirstMissing(ByName(), keyOrder).None? <==> AllDepsMapped(ByName())
      ensures FirstCycle(ByName(), keyOrder).None? <==> forall t :: t in blocks ==> DetectCycle(ByName(), t, []).NoCycle?
    {
      KeyOrderSpec(allBlocks, |allBlocks|);
      FirstMissingFirstCycle(ByName(), keyOrder);
    }
  }
}
