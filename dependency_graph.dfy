/**
 * The dependency graph of `TestDependencyResolver` as pure definitions: the
 * name-to-block map, its `requires` edges, chains along them, and the
 * depth-first cycle search `detectCircularDependencies`
 * (`src/utils/testDependencyResolver.ts`).
 */
module DependencyGraph {
  import opened Wrappers
  import opened Types

  /** The resolver's `blocks` map: test name to test block. */
  type Graph = map<string, YamlBlock>

  /** The names a mapped test lists under `requires`; nothing for an unmapped name or a block without the list. */
  function Deps(g: Graph, name: string): seq<string> {
    if name in g && g[name].requiredTests.Some? then g[name].requiredTests.value else []
  }

  function Elems(s: seq<string>): set<string> {
    set x | x in s
  }

  ghost predicate Distinct(s: seq<string>) {
    forall i, j :: 0 <= i < j < |s| ==> s[i] != s[j]
  }

  /** Each name of `q` lists the next one under `requires`. */
  ghost predicate Chain(g: Graph, q: seq<string>) {
    forall i :: 0 <= i < |q| - 1 ==> q[i + 1] in Deps(g, q[i])
  }

  /** A chain from `a` ends at `b`. */
  ghost predicate Reaches(g: Graph, a: string, b: string) {
    exists q :: Chain(g, q) && |q| > 0 && q[0] == a && q[|q| - 1] == b
  }

  /** No chain starting at `a` repeats a name: no cycle is reachable from `a`. */
  ghost predicate ChainsSimple(g: Graph, a: string) {
    forall q :: Chain(g, q) && |q| > 0 && q[0] == a ==> Distinct(q)
  }

  /** Every name reachable from `a` is a mapped test. */
  ghost predicate AllReachableMapped(g: Graph, a: string) {
    forall q :: Chain(g, q) && |q| > 0 && q[0] == a ==> q[|q| - 1] in g
  }

  /** Every `requires` entry of every mapped test is itself mapped. */
  ghost predicate AllDepsMapped(g: Graph) {
    forall n, d :: n in g && d in Deps(g, n) ==> d in g
  }

  /** `s` holds the requirements of each of its names. */
  ghost predicate Closed(g: Graph, s: set<string>) {
    forall n, d :: n in s && d in Deps(g, n) ==> d in s
  }

  function IndexOf(s: seq<string>, x: string): (i: nat)
    requires x in s
    ensures i < |s| && s[i] == x && x !in s[..i]
  {
    if s[0] == x then 0
    else
      var i := IndexOf(s[1..], x);
      assert s[..i + 1] == [s[0]] + s[1..][..i];
      i + 1
  }

  // ---------------------------------------------------------------------------
  // The cycle search
  // ---------------------------------------------------------------------------

  /** Pushing a mapped name that is not yet on the path shrinks the set of unvisited names. */
  lemma PushShrinks(g: Graph, path: seq<string>, name: string)
    requires name in g && name !in path
    ensures g.Keys - Elems(path + [name]) < g.Keys - Elems(path)
  {
    assert Elems(path + [name]) == Elems(path) + {name};
    assert name in g.Keys - Elems(path);
  }

  /** The result of `detectCircularDependencies`: `hasCircular` with the cycle it found. */
  datatype CycleCheck = NoCycle | Cycle(cycle: seq<string>)

  /**
   * `detectCircularDependencies(name, visiting, path)` where `visiting` is the
   * set of names on `path`. A name already on the path closes a cycle, which
   * is reported from its first occurrence on the path back to itself; an
   * unmapped name or one without `requires` ends the search; otherwise every
   * requirement is searched in order with the name pushed on the path.
   */
  function DetectCycle(g: Graph, name: string, path: seq<string>): CycleCheck
    decreases g.Keys - Elems(path), 0
  {
    if name in path then Cycle(path[IndexOf(path, name)..] + [name])
    else if name !in g || g[name].requiredTests.None? then NoCycle
    else
      PushShrinks(g, path, name);
      DetectCycleAll(g, g[name].requiredTests.value, path + [name])
  }

  /** The loop over `requires` in `detectCircularDependencies`: the first cycle found, if any. */
  function DetectCycleAll(g: Graph, deps: seq<string>, path: seq<string>): CycleCheck
    decreases g.Keys - Elems(path), 1, |deps|
  {
    if deps == [] then NoCycle
    else
      var r := DetectCycle(g, deps[0], path);
      if r.Cycle? then r else DetectCycleAll(g, deps[1..], path)
  }

  lemma {:induction false} DetectCycleAllNoCycle(g: Graph, deps: seq<string>, path: seq<string>)
    ensures DetectCycleAll(g, deps, path).NoCycle? <==> forall d :: d in deps ==> DetectCycle(g, d, path).NoCycle?
    decreases |deps|
  {
    if deps != [] {
      DetectCycleAllNoCycle(g, deps[1..], path);
      assert deps[0] in deps;
      assert forall d :: d in deps[1..] ==> d in deps;
      if DetectCycleAll(g, deps, path).NoCycle? {
        forall d | d in deps
          ensures DetectCycle(g, d, path).NoCycle?
        {
          if d != deps[0] {
            assert d in deps[1..];
          }
        }
      }
    }
  }

  lemma {:induction false} DetectCycleAllWitness(g: Graph, deps: seq<string>, path: seq<string>) returns (d: string)
    requires DetectCycleAll(g, deps, path).Cycle?
    ensures d in deps && DetectCycle(g, d, path) == DetectCycleAll(g, deps, path)
    decreases |deps|
  {
    if DetectCycle(g, deps[0], path).Cycle? {
      d := deps[0];
    } else {
      d := DetectCycleAllWitness(g, deps[1..], path);
    }
  }

  lemma ChainAppend(g: Graph, q: seq<string>, x: string)
    requires Chain(g, q) && |q| > 0 && x in Deps(g, q[|q| - 1])
    ensures Chain(g, q + [x])
  {
  }

  /** A suffix of a chain is a chain. */
  lemma ChainSuffix(g: Graph, q: seq<string>, i: nat)
    requires Chain(g, q) && i <= |q|
    ensures Chain(g, q[i..])
  {
  }

  /**
   * A reported cycle starts and ends with the same name, follows `requires`
   * edges throughout and repeats no other name.
   */
  lemma {:induction false} CycleShape(g: Graph, name: string, path: seq<string>)
    requires Chain(g, path + [name]) && Distinct(path)
    requires DetectCycle(g, name, path).Cycle?
    ensures var c := DetectCycle(g, name, path).cycle;
            |c| >= 2 && c[0] == c[|c| - 1] && Chain(g, c) && Distinct(c[..|c| - 1])
    decreases g.Keys - Elems(path)
  {
    if name in path {
      var i := IndexOf(path, name);
      var c := path[i..] + [name];
      assert c == (path + [name])[i..];
      ChainSuffix(g, path + [name], i);
      assert c[..|c| - 1] == path[i..];
    } else {
      var deps := g[name].requiredTests.value;
      var d := DetectCycleAllWitness(g, deps, path + [name]);
      assert d in Deps(g, name);
      ChainAppend(g, path + [name], d);
      PushShrinks(g, path, name);
      CycleShape(g, d, path + [name]);
    }
  }

  /** A search that finds no cycle has walked only duplicate-free chains. */
  lemma {:induction false} NoCycleChainsDistinct(g: Graph, name: string, path: seq<string>, q: seq<string>)
    requires Distinct(path)
    requires DetectCycle(g, name, path).NoCycle?
    requires Chain(g, q) && |q| > 0 && q[0] == name
    ensures Distinct(path + q)
    decreases |q|
  {
    assert name !in path;
    if |q| == 1 {
      assert path + q == path + [name];
    } else {
      var d := q[1];
      assert d in Deps(g, name);
      var deps := g[name].requiredTests.value;
      DetectCycleAllNoCycle(g, deps, path + [name]);
      assert DetectCycle(g, d, path + [name]).NoCycle?;
      var q' := q[1..];
      assert Chain(g, q') by {
        forall k | 0 <= k < |q'| - 1
          ensures q'[k + 1] in Deps(g, q'[k])
        {
          assert q'[k] == q[k + 1] && q'[k + 1] == q[k + 2];
        }
      }
      assert Distinct(path + [name]) by {
        var p := path + [name];
        forall i, j | 0 <= i < j < |p|
          ensures p[i] != p[j]
        {
          if j == |path| {
            assert p[i] == path[i] && p[j] == name;
          } else {
            assert p[i] == path[i] && p[j] == path[j];
          }
        }
      }
      NoCycleChainsDistinct(g, d, path + [name], q');
      assert path + q == (path + [name]) + q';
    }
  }

  /** A search that finds a cycle has a chain from the start of the path that repeats a name. */
  lemma {:induction false} CycleMeansRepeat(g: Graph, name: string, path: seq<string>)
    requires Chain(g, path + [name])
    requires DetectCycle(g, name, path).Cycle?
    ensures !ChainsSimple(g, (path + [name])[0])
    decreases g.Keys - Elems(path)
  {
    var p := path + [name];
    if name in path {
      var i := IndexOf(path, name);
      assert p[i] == p[|p| - 1];
      assert !Distinct(p);
    } else {
      var deps := g[name].requiredTests.value;
      var d := DetectCycleAllWitness(g, deps, p);
      assert d in Deps(g, name);
      ChainAppend(g, p, d);
      PushShrinks(g, path, name);
      CycleMeansRepeat(g, d, p);
      assert (p + [d])[0] == p[0];
    }
  }

  /** The search from `t` with an empty path finds a cycle exactly when some chain from `t` repeats a name. */
  lemma NoCycleIffChainsSimple(g: Graph, t: string)
    ensures DetectCycle(g, t, []).NoCycle? <==> ChainsSimple(g, t)
  {
    if DetectCycle(g, t, []).NoCycle? {
      forall q | Chain(g, q) && |q| > 0 && q[0] == t
        ensures Distinct(q)
      {
        NoCycleChainsDistinct(g, t, [], q);
        assert [] + q == q;
      }
    } else {
      assert [] + [t] == [t];
      CycleMeansRepeat(g, t, []);
    }
  }

  /** A test whose first requirement is itself is reported as the cycle [A, A]. */
  lemma SelfRequirement(g: Graph, a: string)
    requires a in g && g[a].requiredTests.Some?
    requires |g[a].requiredTests.value| > 0 && g[a].requiredTests.value[0] == a
    ensures DetectCycle(g, a, []) == Cycle([a, a])
  {
    var deps := g[a].requiredTests.value;
    assert [] + [a] == [a];
    assert DetectCycle(g, a, []) == DetectCycleAll(g, deps, [a]);
    assert DetectCycle(g, a, [a]) == Cycle([a, a]) by {
      assert IndexOf([a], a) == 0;
    }
    assert DetectCycleAll(g, deps, [a]) == DetectCycle(g, a, [a]);
  }

  /** When A's only requirement is B and B's only requirement is A, the search from A reports [A, B, A]. */
  lemma MutualRequirement(g: Graph, a: string, b: string)
    requires a != b && a in g && b in g
    requires g[a].requiredTests == Some([b]) && g[b].requiredTests == Some([a])
    ensures DetectCycle(g, a, []) == Cycle([a, b, a])
  {
    assert IndexOf([a, b], a) == 0;
    assert [a, b][0..] + [a] == [a, b, a];
    assert DetectCycle(g, a, [a, b]) == Cycle([a, b, a]);
    assert DetectCycleAll(g, [a], [a, b]) == Cycle([a, b, a]);
    assert [a] + [b] == [a, b];
    assert DetectCycle(g, b, [a]) == Cycle([a, b, a]);
    assert DetectCycleAll(g, [b], [a]) == Cycle([a, b, a]);
    assert [] + [a] == [a];
  }

  // ---------------------------------------------------------------------------
  // Reachability
  // ---------------------------------------------------------------------------

  lemma ReachesSelf(g: Graph, a: string)
    ensures Reaches(g, a, a)
  {
    assert Chain(g, [a]);
  }

  /** What a requirement of `a` reaches, `a` reaches too. */
  lemma ReachesThrough(g: Graph, a: string, b: string, c: string)
    requires b in Deps(g, a) && Reaches(g, b, c)
    ensures Reaches(g, a, c)
  {
    var q :| Chain(g, q) && |q| > 0 && q[0] == b && q[|q| - 1] == c;
    var q' := [a] + q;
    forall i | 0 <= i < |q'| - 1
      ensures q'[i + 1] in Deps(g, q'[i])
    {
      if i > 0 {
        assert q'[i] == q[i - 1] && q'[i + 1] == q[i];
      }
    }
    assert Chain(g, q') && q'[0] == a && q'[|q'| - 1] == c;
  }

  /** A set closed under `requires` holds every name reachable from its members. */
  lemma {:induction false} ClosedHoldsChain(g: Graph, s: set<string>, q: seq<string>)
    requires Closed(g, s) && Chain(g, q) && |q| > 0 && q[0] in s
    ensures q[|q| - 1] in s
    decreases |q|
  {
    if |q| > 1 {
      var q' := q[..|q| - 1];
      assert Chain(g, q') by {
        forall k | 0 <= k < |q'| - 1
          ensures q'[k + 1] in Deps(g, q'[k])
        {
          assert q'[k] == q[k] && q'[k + 1] == q[k + 1];
        }
      }
      ClosedHoldsChain(g, s, q');
      assert q[|q| - 1] in Deps(g, q[|q| - 2]);
    }
  }

  lemma ClosedHoldsReachable(g: Graph, s: set<string>, a: string, b: string)
    requires Closed(g, s) && a in s && Reaches(g, a, b)
    ensures b in s
  {
    var q :| Chain(g, q) && |q| > 0 && q[0] == a && q[|q| - 1] == b;
    ClosedHoldsChain(g, s, q);
  }

  /** When every `requires` entry is mapped, so is every name reachable from a mapped test. */
  lemma AllDepsMappedReach(g: Graph, t: string)
    requires AllDepsMapped(g) && t in g
    ensures AllReachableMapped(g, t)
  {
    assert Closed(g, g.Keys);
    forall q | Chain(g, q) && |q| > 0 && q[0] == t
      ensures q[|q| - 1] in g
    {
      ClosedHoldsChain(g, g.Keys, q);
    }
  }

  /** A name at the end of a chain from a root whose chains never repeat a name is not earlier on that chain. */
  lemma TestNotOnStack(g: Graph, stack: seq<string>, t: string)
    requires Chain(g, stack + [t]) && ChainsSimple(g, (stack + [t])[0])
    ensures t !in stack
  {
    var here := stack + [t];
    assert Distinct(here);
    forall k | 0 <= k < |stack|
      ensures stack[k] != t
    {
      assert here[k] == stack[k] && here[|stack|] == t;
    }
  }

  /** What a chain from the root reaches after `p` ends cannot lie on `p` itself when no chain from the root repeats a name. */
  lemma NoReturn(g: Graph, p: seq<string>, d: string, n: string)
    requires |p| > 0 && Chain(g, p + [d]) && ChainsSimple(g, p[0]) && Reaches(g, d, n)
    ensures n !in p
  {
    var q :| Chain(g, q) && |q| > 0 && q[0] == d && q[|q| - 1] == n;
    var r := p + q;
    forall i | 0 <= i < |r| - 1
      ensures r[i + 1] in Deps(g, r[i])
    {
      if i < |p| - 1 {
        assert r[i] == (p + [d])[i] && r[i + 1] == (p + [d])[i + 1];
      } else if i == |p| - 1 {
        assert r[i] == (p + [d])[i] && r[i + 1] == (p + [d])[i + 1];
      } else {
        assert r[i] == q[i - |p|] && r[i + 1] == q[i + 1 - |p|];
      }
    }
    assert Chain(g, r) && r[0] == p[0];
    assert Distinct(r);
    forall k | 0 <= k < |p|
      ensures p[k] != n
    {
      assert r[k] == p[k] && r[|r| - 1] == n;
    }
  }

  /** When some chain from `a` ends at an unmapped name, not everything reachable from `a` is mapped. */
  lemma ReachesUnmapped(g: Graph, a: string, x: string)
    requires Reaches(g, a, x) && x !in g
    ensures !AllReachableMapped(g, a)
  {
  }

  // ---------------------------------------------------------------------------
  // Whole-file validation
  // ---------------------------------------------------------------------------

  /** The first entry of `ds` that is not a mapped test. */
  function FirstUnmapped(g: Graph, ds: seq<string>): Option<string> {
    if ds == [] then None
    else if ds[0] !in g then Some(ds[0])
    else FirstUnmapped(g, ds[1..])
  }

  /** The first test, in `keys` order, with a requirement that is not mapped, and that requirement. */
  function FirstMissing(g: Graph, keys: seq<string>): Option<(string, string)> {
    if keys == [] then None
    else
      match FirstUnmapped(g, Deps(g, keys[0]))
      case Some(d) => Some((keys[0], d))
      case None => FirstMissing(g, keys[1..])
  }

  /** The first test, in `keys` order, from which the search finds a cycle, and that cycle. */
  function FirstCycle(g: Graph, keys: seq<string>): Option<(string, seq<string>)> {
    if keys == [] then None
    else
      match DetectCycle(g, keys[0], [])
      case Cycle(c) => Some((keys[0], c))
      case NoCycle => FirstCycle(g, keys[1..])
  }

  /** `FirstUnmapped` finds nothing exactly when every entry is mapped, and what it finds is an unmapped entry. */
  lemma {:induction false} FirstUnmappedSpec(g: Graph, ds: seq<string>)
    ensures FirstUnmapped(g, ds).None? <==> forall d :: d in ds ==> d in g
    ensures FirstUnmapped(g, ds).Some? ==> FirstUnmapped(g, ds).value in ds && FirstUnmapped(g, ds).value !in g
  {
    if ds != [] && ds[0] in g {
      FirstUnmappedSpec(g, ds[1..]);
      assert forall d :: d in ds <==> d == ds[0] || d in ds[1..];
    }
  }

  /** `FirstMissing` finds nothing exactly when every requirement of every listed test is mapped; what it finds is such a requirement. */
  lemma {:induction false} FirstMissingSpec(g: Graph, keys: seq<string>)
    ensures FirstMissing(g, keys).None? <==> forall t, d :: t in keys && d in Deps(g, t) ==> d in g
    ensures FirstMissing(g, keys).Some? ==>
              var (t, d) := FirstMissing(g, keys).value;
              t in keys && d in Deps(g, t) && d !in g
  {
    if keys != [] {
      FirstUnmappedSpec(g, Deps(g, keys[0]));
      if FirstUnmapped(g, Deps(g, keys[0])).None? {
        FirstMissingSpec(g, keys[1..]);
        assert forall t :: t in keys <==> t == keys[0] || t in keys[1..];
      }
    }
  }

  /** `FirstCycle` finds nothing exactly when no search from a listed test finds a cycle; what it finds is a search's cycle. */
  lemma {:induction false} FirstCycleSpec(g: Graph, keys: seq<string>)
    ensures FirstCycle(g, keys).None? <==> forall t :: t in keys ==> DetectCycle(g, t, []).NoCycle?
    ensures FirstCycle(g, keys).Some? ==>
              var (t, c) := FirstCycle(g, keys).value;
              t in keys && DetectCycle(g, t, []) == Cycle(c)
  {
    if keys != [] {
      if DetectCycle(g, keys[0], []).NoCycle? {
        FirstCycleSpec(g, keys[1..]);
        assert forall t :: t in keys <==> t == keys[0] || t in keys[1..];
      } else {
        assert keys[0] in keys;
      }
    }
  }

  /** Over a list of every mapped name, the two searches come back empty exactly when the graph is complete and acyclic. */
  lemma FirstMissingFirstCycle(g: Graph, keys: seq<string>)
    requires Elems(keys) == g.Keys
    ensures FirstMissing(g, keys).None? <==> AllDepsMapped(g)
    ensures FirstCycle(g, keys).None? <==> forall t :: t in g ==> DetectCycle(g, t, []).NoCycle?
  {
    FirstMissingSpec(g, keys);
    FirstCycleSpec(g, keys);
    assert forall t :: t in keys <==> t in g;
  }
}
