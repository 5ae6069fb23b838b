/**
 * What `resolveDependencies` computes (`src/utils/testDependencyResolver.ts`),
 * as a function of the name-to-block map, and what it guarantees: the
 * requirements of a test come before it, each test once, and exactly the
 * tests it reaches through `requires`.
 */
module Ordering {
  import opened Wrappers
  import opened Types
  import opened DependencyGraph


  /** Every requirement of `names[i]` is in `base` or comes earlier in `names`. */
  ghost predicate DepsFirst(g: Graph, base: set<string>, names: seq<string>) {
    forall i, d :: 0 <= i < |names| && d in Deps(g, names[i]) ==> d in base || d in names[..i]
  }

  /** `bs` holds the blocks of `names`, position by position. */
  ghost predicate Lists(g: Graph, bs: seq<YamlBlock>, names: seq<string>) {
    |bs| == |names| && forall i :: 0 <= i < |names| ==> names[i] in g && bs[i] == g[names[i]]
  }

  /**
   * The shared `included` set went from `included` to `cur` by adding `names`,
   * each of them once and after its own requirements, and stays closed under
   * `requires`.
   */
  ghost predicate Settled(g: Graph, included: set<string>, cur: set<string>, names: seq<string>) {
    && cur == included + Elems(names)
    && Elems(names) !! included
    && Distinct(names)
    && cur <= g.Keys
    && Closed(g, cur)
    && DepsFirst(g, included, names)
  }

  lemma SettledNone(g: Graph, included: set<string>)
    requires included <= g.Keys && Closed(g, included)
    ensures Settled(g, included, included, [])
  {
  }

  /** Two settled stretches in a row make one. */
  lemma SettledAppend(g: Graph, included: set<string>, cur: set<string>, acc: seq<string>, cur': set<string>, more: seq<string>)
    requires Settled(g, included, cur, acc) && Settled(g, cur, cur', more)
    ensures Settled(g, included, cur', acc + more)
  {
    var s := acc + more;
    assert Elems(s) == Elems(acc) + Elems(more);
    forall i, j | 0 <= i < j < |s|
      ensures s[i] != s[j]
    {
      if j < |acc| {
        assert s[i] == acc[i] && s[j] == acc[j];
      } else if i >= |acc| {
        assert s[i] == more[i - |acc|] && s[j] == more[j - |acc|];
      } else {
        assert s[i] == acc[i] && s[i] in cur;
        assert s[j] == more[j - |acc|] && s[j] in Elems(more);
      }
    }
    forall i, d | 0 <= i < |s| && d in Deps(g, s[i])
      ensures d in included || d in s[..i]
    {
      if i < |acc| {
        assert s[i] == acc[i] && s[..i] == acc[..i];
      } else {
        var k := i - |acc|;
        assert s[i] == more[k] && s[..i] == acc + more[..k];
        assert d in cur || d in more[..k];
      }
    }
  }

  /** Adding a name whose requirements are all settled settles it too. */
  lemma SettledPush(g: Graph, included: set<string>, cur: set<string>, acc: seq<string>, t: string)
    requires Settled(g, included, cur, acc) && t in g && t !in cur
    requires forall d :: d in Deps(g, t) ==> d in cur
    ensures Settled(g, included, cur + {t}, acc + [t])
  {
  }

  lemma ListsAppend(g: Graph, bs: seq<YamlBlock>, names: seq<string>, bs': seq<YamlBlock>, names': seq<string>)
    requires Lists(g, bs, names) && Lists(g, bs', names')
    ensures Lists(g, bs + bs', names + names')
  {
  }

  /**
   * What `resolveDependencies(t, included)` delivers: `names` were added to
   * the shared set, once each and after their requirements, their blocks are
   * `bs`, `t` is included now and comes last unless it was already there, and
   * every added name is a requirement of `t`, directly or not.
   */
  ghost predicate Resolved(g: Graph, included: set<string>, t: string, bs: seq<YamlBlock>, included': set<string>, names: seq<string>) {
    && Settled(g, included, included', names)
    && Lists(g, bs, names)
    && t in included'
    && (t !in included ==> names != [] && names[|names| - 1] == t)
    && (forall n :: n in names ==> Reaches(g, t, n))
  }

  /** The state of `resolveDependencies(t, included)` part way through the requirements of `t`. */
  ghost predicate Partial(g: Graph, included: set<string>, t: string, cur: set<string>, bs: seq<YamlBlock>, names: seq<string>) {
    && Settled(g, included, cur, names)
    && Lists(g, bs, names)
    && (forall n :: n in names ==> Reaches(g, t, n))
    && t !in names
  }

  /** After one requirement `d` of `t` is resolved, the state is still partial, and `d` is included. */
  lemma ResolveStep(g: Graph, included: set<string>, t: string, here: seq<string>, d: string,
                    cur: set<string>, bs: seq<YamlBlock>, names: seq<string>,
                    cur': set<string>, bs': seq<YamlBlock>, more: seq<string>)
    requires |here| > 0 && Chain(g, here + [d]) && ChainsSimple(g, here[0]) && t in here && d in Deps(g, t)
    requires Partial(g, included, t, cur, bs, names)
    requires Resolved(g, cur, d, bs', cur', more)
    ensures Partial(g, included, t, cur', bs + bs', names + more)
    ensures cur <= cur' && d in cur'
  {
    forall n | n in more
      ensures Reaches(g, t, n) && n != t
    {
      ReachesThrough(g, t, d, n);
      NoReturn(g, here, d, n);
    }
    SettledAppend(g, included, cur, names, cur', more);
    ListsAppend(g, bs, names, bs', more);
  }

  /** Once all requirements of `t` are included, adding `t` itself completes the resolution. */
  lemma ResolvePush(g: Graph, included: set<string>, t: string, cur: set<string>, bs: seq<YamlBlock>, names: seq<string>)
    requires Partial(g, included, t, cur, bs, names) && t in g && t !in cur
    requires forall d :: d in Deps(g, t) ==> d in cur
    ensures Resolved(g, included, t, bs + [g[t]], cur + {t}, names + [t])
  {
  }

  /**
   * The dependency part of an execution order for `t`: the blocks of every
   * test `t` reaches, `t` included and last, each once and after its
   * requirements.
   */
  ghost predicate DependencyOrder(g: Graph, t: string, bs: seq<YamlBlock>, names: seq<string>) {
    && Lists(g, bs, names)
    && Distinct(names)
    && names != [] && names[|names| - 1] == t
    && (forall n :: n in names <==> Reaches(g, t, n))
    && DepsFirst(g, {}, names)
  }

  /**
   * The outcome of `resolveDependencies(t, included)`: the blocks it returns,
   * the shared `included` set afterwards, the names it added in order, and
   * the first required name that is not a test of the file, if any.
   */
  datatype Walk = Walk(blocks: seq<YamlBlock>, included: set<string>, names: seq<string>, missing: Option<string>)

  /**
   * `resolveDependencies(t, included)` where `stack` is the chain of calls
   * that led to `t`. A name already included adds nothing; an unmapped name
   * is reported missing; otherwise the requirements are resolved in order,
   * the first failure is passed on, and `t` is added last unless one of its
   * requirements has included it meanwhile. It is defined where no chain
   * from the root of the calls repeats a name.
   */
  ghost function Resolve(g: Graph, t: string, included: set<string>, stack: seq<string>): Walk
    requires Chain(g, stack + [t]) && ChainsSimple(g, (stack + [t])[0])
    decreases g.Keys - Elems(stack), 1, 0
  {
    if t in included then Walk([], included, [], None)
    else if t !in g then Walk([], included, [], Some(t))
    else
      var here := stack + [t];
      TestNotOnStack(g, stack, t);
      PushShrinks(g, stack, t);
      var w := ResolveAll(g, Deps(g, t), included, [], [], here);
      if w.missing.Some? || t in w.included then w
      else Walk(w.blocks + [g[t]], w.included + {t}, w.names + [t], None)
  }

  /**
   * The loop over the requirements `deps` of the last name of `here`, with
   * the blocks and names gathered so far: the first failure is returned as
   * it is, and otherwise the results are concatenated.
   */
  ghost function ResolveAll(g: Graph, deps: seq<string>, cur: set<string>, accBlocks: seq<YamlBlock>,
                            accNames: seq<string>, here: seq<string>): Walk
    requires |here| > 0 && Chain(g, here) && ChainsSimple(g, here[0])
    requires forall d :: d in deps ==> d in Deps(g, here[|here| - 1])
    decreases g.Keys - Elems(here), 2, |deps|
  {
    if deps == [] then Walk(accBlocks, cur, accNames, None)
    else
      assert deps[0] in deps && forall d :: d in deps[1..] ==> d in deps;
      ChainAppend(g, here, deps[0]);
      assert (here + [deps[0]])[0] == here[0];
      var w := Resolve(g, deps[0], cur, here);
      if w.missing.Some? then w
      else ResolveAll(g, deps[1..], w.included, accBlocks + w.blocks, accNames + w.names, here)
  }

  /** A resolution that fails returns no blocks and names an unmapped test that `t` reaches. */
  lemma {:induction false} ResolveMissing(g: Graph, t: string, included: set<string>, stack: seq<string>)
    requires Chain(g, stack + [t]) && ChainsSimple(g, (stack + [t])[0])
    ensures var w := Resolve(g, t, included, stack);
            w.missing.Some? ==> w.blocks == [] && w.missing.value !in g && Reaches(g, t, w.missing.value)
    decreases g.Keys - Elems(stack), 1, 0
  {
    if t !in included {
      if t !in g {
        ReachesSelf(g, t);
      } else {
        var here := stack + [t];
        TestNotOnStack(g, stack, t);
        PushShrinks(g, stack, t);
        ResolveAllMissing(g, Deps(g, t), included, [], [], here);
      }
    }
  }

  lemma {:induction false} ResolveAllMissing(g: Graph, deps: seq<string>, cur: set<string>, accBlocks: seq<YamlBlock>,
                                             accNames: seq<string>, here: seq<string>)
    requires |here| > 0 && Chain(g, here) && ChainsSimple(g, here[0])
    requires forall d :: d in deps ==> d in Deps(g, here[|here| - 1])
    ensures var w := ResolveAll(g, deps, cur, accBlocks, accNames, here);
            w.missing.Some? ==> w.blocks == [] && w.missing.value !in g && Reaches(g, here[|here| - 1], w.missing.value)
    decreases g.Keys - Elems(here), 2, |deps|
  {
    if deps != [] {
      var d := deps[0];
      assert d in deps && forall x :: x in deps[1..] ==> x in deps;
      ChainAppend(g, here, d);
      assert (here + [d])[0] == here[0];
      ResolveMissing(g, d, cur, here);
      var w := Resolve(g, d, cur, here);
      if w.missing.Some? {
        ReachesThrough(g, here[|here| - 1], d, w.missing.value);
      } else {
        ResolveAllMissing(g, deps[1..], w.included, accBlocks + w.blocks, accNames + w.names, here);
      }
    }
  }

  /**
   * A resolution that succeeds from a set closed under `requires` is
   * `Resolved`: it adds each name once, after its requirements, ends with
   * `t` when `t` was new, and adds only names `t` reaches.
   */
  lemma {:induction false} ResolveOk(g: Graph, t: string, included: set<string>, stack: seq<string>)
    requires Chain(g, stack + [t]) && ChainsSimple(g, (stack + [t])[0])
    requires included <= g.Keys && Closed(g, included)
    ensures var w := Resolve(g, t, included, stack);
            w.missing.None? ==> Resolved(g, included, t, w.blocks, w.included, w.names)
    decreases g.Keys - Elems(stack), 1, 0
  {
    SettledNone(g, included);
    if t !in included && t in g {
      var here := stack + [t];
      TestNotOnStack(g, stack, t);
      PushShrinks(g, stack, t);
      ResolveAllOk(g, included, t, Deps(g, t), included, [], [], here);
      var w := ResolveAll(g, Deps(g, t), included, [], [], here);
      if w.missing.None? && t !in w.included {
        ResolvePush(g, included, t, w.included, w.blocks, w.names);
      }
    }
  }

  lemma {:induction false} ResolveAllOk(g: Graph, included: set<string>, t: string, deps: seq<string>, cur: set<string>,
                                        accBlocks: seq<YamlBlock>, accNames: seq<string>, here: seq<string>)
    requires |here| > 0 && Chain(g, here) && ChainsSimple(g, here[0]) && here[|here| - 1] == t
    requires forall d :: d in deps ==> d in Deps(g, t)
    requires Partial(g, included, t, cur, accBlocks, accNames)
    ensures var w := ResolveAll(g, deps, cur, accBlocks, accNames, here);
            w.missing.None? ==>
              && Partial(g, included, t, w.included, w.blocks, w.names)
              && cur <= w.included
              && forall d :: d in deps ==> d in w.included
    decreases g.Keys - Elems(here), 2, |deps|
  {
    if deps != [] {
      var d := deps[0];
      assert d in deps && forall x :: x in deps[1..] ==> x in deps;
      ChainAppend(g, here, d);
      assert (here + [d])[0] == here[0];
      var w := Resolve(g, d, cur, here);
      ResolveOk(g, d, cur, here);
      if w.missing.None? {
        ResolveStep(g, included, t, here, d, cur, accBlocks, accNames, w.included, w.blocks, w.names);
        ResolveAllOk(g, included, t, deps[1..], w.included, accBlocks + w.blocks, accNames + w.names, here);
        assert forall x :: x in deps ==> x == d || x in deps[1..];
      }
    }
  }

  /**
   * Resolving a target from an empty set, where no chain from the target
   * repeats a name: it fails exactly when some test the target reaches is
   * not in the file, and otherwise lists every test the target reaches, each
   * once, after its requirements, with the target last.
   */
  lemma ResolveFromTarget(g: Graph, t: string)
    requires t in g && ChainsSimple(g, t)
    ensures var w := Resolve(g, t, {}, []);
            && (w.missing.None? <==> AllReachableMapped(g, t))
            && (w.missing.Some? ==> w.blocks == [] && w.missing.value !in g && Reaches(g, t, w.missing.value))
            && (w.missing.None? ==> DependencyOrder(g, t, w.blocks, w.names))
  {
    assert [] + [t] == [t];
    assert Chain(g, [t]);
    assert Closed(g, {});
    var w := Resolve(g, t, {}, []);
    ResolveMissing(g, t, {}, []);
    ResolveOk(g, t, {}, []);
    if w.missing.Some? {
      ReachesUnmapped(g, t, w.missing.value);
    } else {
      assert w.included == Elems(w.names);
      forall n | Reaches(g, t, n)
        ensures n in w.names
      {
        ClosedHoldsReachable(g, w.included, t, n);
      }
      forall q | Chain(g, q) && |q| > 0 && q[0] == t
        ensures q[|q| - 1] in g
      {
        ClosedHoldsChain(g, w.included, q);
      }
    }
  }
}
