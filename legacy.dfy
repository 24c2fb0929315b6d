/** The older revision of the structure learner, structure_learning_module.rb,
    modelled beside the current one so that the places where the two differ
    can be stated. Its `power_set` and `adjacent_either` coincide with the
    current revision and are the members of Combinatorics and Graphs. As
    written, its `initialize` raises NoMethodError (OldInitAsWritten), so no
    older LearningNet is ever built; the class below and the older
    `compatible_orientations` describe the revision with `complete_graph`
    and `make_directed` in reach. */
module Legacy {
  import opened Seqs
  import opened Graphs
  import opened SimplePaths
  import opened OpenTriples
  import opened Ruby
  import opened Combinatorics
  import opened Acyclicity
  import opened DefaultHashes

  // ---------------------------------------------------------------------
  // verts_on_paths (lines 33-43)

  /** What one call of the older `verts_on_paths` returns: the accumulator
      it was handed, plus the path it completes when it stands on the
      target, flattened and de-duplicated. The recursive calls of line 39
      are not handed `paths`, so each gets a fresh accumulator of its own and
      nothing they record reaches the caller. */
  function OldVertsOnPathsOf<V(==,!new)>(c: V, t: V, pre: seq<V>, paths: seq<seq<V>>): seq<V>
  {
    Uniq(Flatten(if c == t then paths + [pre + [c]] else paths))
  }

  /** One call of the older `verts_on_paths(current_vertex, t, current_path,
      paths)`: the search still walks every simple path (and so terminates
      on cyclic graphs), but discards what the recursive calls find. */
  method OldVisit<V(==,!new)>(g: Graph<V>, c: V, t: V, pre: seq<V>, paths0: seq<seq<V>>) returns (r: seq<V>)
    ensures r == OldVertsOnPathsOf(c, t, pre, paths0)
    ensures c != t ==> r == Uniq(Flatten(paths0))
    decreases g.adj.Keys - Elems(pre), 0
  {
    var paths := paths0;
    if c == t {
      paths := paths + [pre + [c]];
    } else {
      var adj := Adj(g, c);
      for i := 0 to |adj| {
        if c !in pre {
          assert c in g.adj.Keys - Elems(pre);
          assert Elems(pre + [c]) == Elems(pre) + {c};
          // line 39 passes no accumulator: the result is dropped
          var discarded := OldVisit(g, adj[i], t, pre + [c], []);
        }
      }
    }
    r := Uniq(Flatten(paths));
  }

  /** `verts_on_paths(s, t)` of the older revision: `[t]` from `t` itself
      and `[]` from every other vertex, whatever the graph. */
  method OldVertsOnPaths<V(==,!new)>(g: Graph<V>, s: V, t: V) returns (r: seq<V>)
    ensures r == OldVertsOnPathsOf(s, t, [], [])
    ensures s == t ==> r == [t]
    ensures s != t ==> r == []
  {
    r := OldVisit(g, s, t, [], []);
    if s == t {
      assert [] + [s] == [s];
      assert Flatten([[s]]) == [s];
      UniqOfNoDup([s]);
    }
  }

  /** The older search loses every path between distinct vertices: when a
      simple path joins `s` to `t`, the current search reports both ends
      while the older one reports nothing. */
  lemma OldVertsOnPathsLosesPaths<V(!new)>(g: Graph<V>, s: V, t: V, p: seq<V>)
    requires s != t && SimplePath(g, p, s, t)
    ensures OldVertsOnPathsOf(s, t, [], []) == []
    ensures s in VertsOnPathsOf(g, s, t) && t in VertsOnPathsOf(g, s, t)
  {
    VertsOnPathsMembers(g, s, t);
    assert p[0] in p && p[|p| - 1] in p;
    var none: seq<seq<V>> := [];
    assert Flatten(none) == [];
  }

  // ---------------------------------------------------------------------
  // complete_graph and make_directed (lines 67-85)

  /** `1..n`. */
  function Range(n: nat): (r: seq<int>)
    ensures |r| == n
    ensures forall i :: 0 <= i < n ==> r[i] == i + 1
  {
    seq(n, i => i + 1)
  }

  /** `complete_graph(n)` for an integer `n`: the vertices `1..n`. */
  function OldCompleteGraph(n: nat): (g: Graph<int>)
    ensures g.verts == Range(n)
  {
    CompleteGraph(Range(n))
  }

  /** `1..n` is `1..x-1`, then `x`, then `x+1..n`. */
  lemma RangeSplit(n: nat, x: int)
    requires 1 <= x <= n
    ensures Range(n) == Range(x - 1) + [x] + seq(n - x, i => x + 1 + i)
  {
  }

  /** Dropping `x` from a list holding it once, between two parts. */
  lemma WithoutSplit(below: seq<int>, x: int, above: seq<int>)
    requires x !in below && x !in above
    ensures Without(below + [x] + above, x) == below + above
  {
    WithoutAppend(below + [x], above, x);
    WithoutAppend(below, [x], x);
    WithoutAbsent(below, x);
    WithoutAbsent(above, x);
  }

  /** In the complete graph on `1..n` the neighbours of `x` are all the
      other vertices in ascending order: `1..x-1` then `x+1..n`. */
  lemma OldCompleteGraphAdjacency(n: nat, x: int)
    requires 1 <= x <= n
    ensures Adj(OldCompleteGraph(n), x) == Range(x - 1) + seq(n - x, i => x + 1 + i)
  {
    RangeSplit(n, x);
    CompleteGraphAdjacency(Range(n), x);
    WithoutSplit(Range(x - 1), x, seq(n - x, i => x + 1 + i));
  }

  /** `complete_graph(n)` on a list (line 68): `n.integer?` is a method of
      numbers only, so a list of vertices raises NoMethodError. */
  function OldCompleteGraphOnList<V>(vs: seq<V>): Outcome<Graph<V>>
  {
    Raise(NoMethodError)
  }

  /** `adjacent_vertices(x)` on the graph the older `make_directed` builds
      (lines 78-85): `directed_edges[x].include? y` for every listed `y`. A
      missing key reads the hash's default array when it has one, and nil
      otherwise, which has no `include?`, so the walk raises NoMethodError at
      its first vertex. The older revision sets no default inside
      `make_directed` (the current one resets it to `[]`). */
  function OldDirectedAdjacent<V(==,!new)>(vs: seq<V>, d: map<V, seq<V>>, default: Option<seq<V>>, x: V): (r: Outcome<seq<V>>)
    ensures r.Ok? <==> vs == [] || x in d || default.Some?
    ensures r.Raise? ==> r.error == NoMethodError
  {
    if vs == [] then Ok([])
    else if x in d then Ok(Filter(vs, y => y in d[x]))
    else if default.Some? then Ok(Filter(vs, y => y in default.value))
    else Raise(NoMethodError)
  }

  /** When the lookup succeeds, the neighbours of `x` are the listed
      vertices, in list order, that occur in its entry or, without an entry,
      in the default array; this is what `View` of the hash (without the
      reset) gives for a listed vertex. */
  lemma OldDirectedAdjacentMeaning<V(!new)>(vs: seq<V>, d: map<V, seq<V>>, default: Option<seq<V>>, x: V)
    requires x in d || default.Some?
    ensures OldDirectedAdjacent(vs, d, default, x).Ok?
    ensures IsSubseq(OldDirectedAdjacent(vs, d, default, x).value, vs)
    ensures forall y :: y in OldDirectedAdjacent(vs, d, default, x).value <==>
      y in vs && y in (if x in d then d[x] else default.value)
    ensures default.Some? && x in vs ==>
      forall y :: y in OldDirectedAdjacent(vs, d, default, x).value <==> y in Adj(View(vs, DefaultHash(d, default.value)), x)
  {
    if vs == [] {
      assert IsSubseq([], vs);
    } else if x in d {
      FilterIsSubseq(vs, y => y in d[x]);
    } else {
      FilterIsSubseq(vs, y => y in default.value);
    }
  }

  // ---------------------------------------------------------------------
  // non_transitive (lines 48-62)

  /** `non_transitive` of the older revision. The `reject!` block asks
      `triple.first.adjacent_vertices`, a method a vertex does not have, so
      the first collected triple raises NoMethodError; only a graph with no
      two-step walk gets its (empty) list back. */
  method OldNonTransitive<V(==,!new)>(g: Graph<V>) returns (r: Outcome<seq<Triple<V>>>)
    ensures r.Ok? <==> AllTriples(g, g.verts) == []
    ensures r.Ok? ==> r.value == []
    ensures r.Raise? ==> r.error == NoMethodError
  {
    var acc := PushAllTriples(g);
    if acc != [] {
      return Raise(NoMethodError);
    }
    r := Ok(acc);
  }

  /** On the complete graph of two or more variables, the net `learn_structure`
      starts from, there is a two-step walk, so the older `non_transitive`
      raises. */
  lemma OldNonTransitiveRaises<V(!new)>(vs: seq<V>, u: V, v: V)
    requires u in vs && v in vs && u != v
    ensures Triple(u, v, u) in AllTriples(CompleteGraph(vs), vs)
    ensures AllTriples(CompleteGraph(vs), vs) != []
  {
    CompleteGraphAdjacency(vs, u);
    CompleteGraphAdjacency(vs, v);
    AllTriplesMembers(CompleteGraph(vs), vs);
  }

  // ---------------------------------------------------------------------
  // step (lines 97-118)

  /** "Aab & Uab" as the older `step` computes it (line 101). */
  function OldIntersect<V(==,!new)>(g: Graph<V>, e: Edge<V>): seq<V>
  {
    Intersect(AdjacentEither(g, e.source, e.target), OldVertsOnPathsOf(e.source, e.target, [], []))
  }

  /** Between distinct vertices the older intersection is empty. */
  lemma OldIntersectEmpty<V(!new)>(g: Graph<V>, e: Edge<V>)
    requires e.source != e.target
    ensures OldIntersect(g, e) == []
  {
    var none: seq<seq<V>> := [];
    assert Flatten(none) == [];
    NoMembersEmpty(OldIntersect(g, e));
  }

  /** The counter after the edge loop of the older `step`, reading the bare
      `n` of line 108 as `@n`: an edge with `|Aab & Uab| <= @n` is skipped by
      `next` (line 105); every other edge reaches `@n += 1` (line 115), which
      sits inside the loop. */
  function OldCounter<V(==,!new)>(g: Graph<V>, es: seq<Edge<V>>, n: int): int
  {
    if es == [] then n
    else
      var m := OldCounter(g, es[..|es| - 1], n);
      if |OldIntersect(g, es[|es| - 1])| <= m then m else m + 1
  }

  /** Over edges between distinct vertices the counter moves from -1 to 0
      on the first edge and stays put from then on; from 0 or more it never
      moves. */
  lemma {:induction false} OldCounterSettles<V(!new)>(g: Graph<V>, es: seq<Edge<V>>, n: int)
    requires forall e :: e in es ==> e.source != e.target
    requires n >= -1
    ensures n >= 0 ==> OldCounter(g, es, n) == n
    ensures n == -1 && es != [] ==> OldCounter(g, es, n) == 0
    ensures n == -1 && es == [] ==> OldCounter(g, es, n) == -1
  {
    if es != [] {
      var front := es[..|es| - 1];
      assert forall e :: e in front ==> e in es;
      OldCounterSettles(g, front, n);
      OldIntersectEmpty(g, es[|es| - 1]);
    }
  }

  /** The older `step` AS WRITTEN: the `n` of line 108 is neither a local
      variable nor a method of LearningNet, so the first edge that is not
      skipped raises NameError; with no such edge the step returns false. */
  function OldStepAsWritten<V(==,!new)>(g: Graph<V>, es: seq<Edge<V>>, n: int): Outcome<bool>
  {
    if es == [] then Ok(false)
    else if |OldIntersect(g, es[0])| <= n then OldStepAsWritten(g, es[1..], n)
    else Raise(NameError)
  }

  /** As written, the first step on the initial net of two or more variables
      (`@n == -1`) raises NameError. */
  lemma OldStepRaisesOnFirstNet<V(!new)>(vs: seq<V>, u: V, v: V)
    requires u in vs && v in vs && u != v
    ensures OldStepAsWritten(CompleteGraph(vs), Edges(CompleteGraph(vs)), -1) == Raise(NameError)
  {
    var g := CompleteGraph(vs);
    CompleteGraphAdjacency(vs, u);
    EdgesFacts(g);
    assert Edge(u, v) in Edges(g) || Edge(v, u) in Edges(g);
    assert Edges(g) != [];
  }

  /** One more edge of the older edge loop, in terms of the edges before it. */
  lemma OldCounterPrefix<V(!new)>(g: Graph<V>, es: seq<Edge<V>>, i: nat, n0: int)
    requires i < |es|
    ensures OldCounter(g, es[..i + 1], n0) ==
      var m := OldCounter(g, es[..i], n0);
      if |OldIntersect(g, es[i])| <= m then m else m + 1
  {
    assert es[..i + 1][..i] == es[..i];
  }

  /** The edge loop of the older `step` over the edges `es` listed at its
      start, with `n` read as `@n`. The `any?` block of lines 108-110 is
      empty, so it never holds and no edge is removed. */
  method OldRound<V(==,!new)>(g: Graph<V>, es: seq<Edge<V>>, n0: int) returns (n: int)
    ensures n == OldCounter(g, es, n0)
  {
    n := n0;
    for i := 0 to |es|
      invariant n == OldCounter(g, es[..i], n0)
    {
      OldCounterPrefix(g, es, i, n0);
      var intersect := OldIntersection(g, es[i]);
      if |intersect| > n {
        n := n + 1;
      }
    }
    assert es[..|es|] == es;
  }

  /** `intersect = adjacent_either(a, b) & verts_on_paths(a, b)` in the older
      `step` (line 101). */
  method OldIntersection<V(==,!new)>(g: Graph<V>, e: Edge<V>) returns (r: seq<V>)
    ensures r == OldIntersect(g, e)
    ensures e.source != e.target ==> r == []
  {
    var uab := OldVertsOnPaths(g, e.source, e.target);
    r := Intersect(AdjacentEither(g, e.source, e.target), uab);
    if e.source != e.target {
      OldIntersectEmpty(g, e);
    }
  }

  /** `initialize` as written (lines 88-94). `complete_graph` (line 67) is
      an instance method of module StructureLearning, which the older
      LearningNet does not include, so line 89 raises NoMethodError before
      anything is stored. With the method in reach (`inReach`), the list of
      variables would raise NoMethodError at `n.integer?` all the same. */
  function OldInitAsWritten<V>(variables: seq<V>, inReach: bool): Outcome<Graph<V>>
  {
    if inReach then OldCompleteGraphOnList(variables) else Raise(NoMethodError)
  }

  /** Whatever the variables, the older `initialize` raises. */
  lemma OldInitRaises<V>(variables: seq<V>, inReach: bool)
    ensures OldInitAsWritten(variables, inReach) == Raise(NoMethodError)
  {
  }

  /** `LearningNet` of the older revision as evidently intended, with
      `complete_graph` in reach and read as the current revision's: as
      written no instance is ever built (OldInitRaises). The data table it
      also stores is not part of this model. */
  class OldLearningNet<V(==,!new)> {
    var net: Graph<V>
    var directedEdges: map<V, seq<V>>
    var n: int

    /** `initialize` as intended: the complete graph on the variables, an
        empty direction hash and `@n = -1`. */
    constructor (variables: seq<V>)
      ensures net == CompleteGraph(variables) && directedEdges == map[] && n == -1
    {
      net := CompleteGraph(variables);
      directedEdges := map[];
      n := -1;
    }

    /** `step`, reading the `n` of line 108 as `@n`: nothing is removed,
        the result is false, and `@n` advances once per edge that is not
        skipped. */
    method Step() returns (anyIndependent: bool)
      modifies this
      ensures !anyIndependent
      ensures net == old(net) && directedEdges == old(directedEdges)
      ensures n == OldCounter(old(net), Edges(old(net)), old(n))
    {
      anyIndependent := false;
      n := OldRound(net, Edges(net), n);
    }

    /** `learn_structure`, with `n` read as `@n`. The first `step` returns
        false, so the `begin ... end while` body runs once and `final_net`
        is the net on entry; then the older `non_transitive` raises unless
        the net has no two-step walk, in which case there is nothing to
        orient and the net is returned unchanged. */
    method LearnStructure() returns (r: Outcome<Graph<V>>)
      modifies this
      ensures n == OldCounter(old(net), Edges(old(net)), old(n))
      ensures net == old(net) && directedEdges == old(directedEdges)
      ensures r.Ok? <==> AllTriples(old(net), old(net).verts) == []
      ensures r.Ok? ==> r.value == old(net)
      ensures r.Raise? ==> r.error == NoMethodError
    {
      var finalNet := net;
      var more := Step();
      var triples := OldNonTransitive(finalNet);
      if triples.Raise? {
        return Raise(triples.error);
      }
      net := finalNet;
      r := Ok(finalNet);
    }
  }

  // ---------------------------------------------------------------------
  // compatible_orientations (lines 146-171), with `make_directed` in reach

  /** One subset: `current_orientation.default = []` (line 154), then the
      edge loop on `@directed_edges` itself (lines 156-164). The older
      `make_directed` does not reset the default afterwards, so the graph
      reads the default array the pushes filled. */
  function OldSubsetPass<V(!new)>(h: DefaultHash<V>, es: seq<Edge<V>>, subset: seq<Edge<V>>): DefaultHash<V>
  {
    PushAll(ResetDefault(h), es, subset)
  }

  /** The loop over the listed subsets: the hash after it, and how many
      graphs were kept by `acyclic?` right after their own pass. */
  function OldCompatRun<V(!new)>(vs: seq<V>, es: seq<Edge<V>>, subsets: seq<seq<Edge<V>>>, h: DefaultHash<V>): (DefaultHash<V>, nat)
  {
    if subsets == [] then (h, 0)
    else
      var run := OldCompatRun(vs, es, subsets[..|subsets| - 1], h);
      var h2 := OldSubsetPass(run.0, es, subsets[|subsets| - 1]);
      (h2, if Acyclic(View(vs, h2)) then run.1 + 1 else run.1)
  }

  /** The older `compatible_orientations` on the net `g` and the direction
      hash `h`: the list it returns, whose graphs all read the hash as the
      loop leaves it, and that hash. */
  function OldCompatibleOrientations<V(!new)>(g: Graph<V>, h: DefaultHash<V>): (seq<Graph<V>>, DefaultHash<V>)
  {
    var es := Edges(g);
    var run := OldCompatRun(g.verts, es, PowerSet(es), h);
    (Copies(run.1, View(g.verts, run.0)), run.0)
  }

  /** After one pass over a non-empty edge list on a hash with no key, the
      last vertex pushed is in the default, so it reads as its own
      neighbour. */
  lemma OldPassPushesLast<V(!new)>(h: DefaultHash<V>, es: seq<Edge<V>>, subset: seq<Edge<V>>)
    requires h.entries == map[] && es != []
    ensures OldSubsetPass(h, es, subset).entries == map[]
    ensures var e := es[|es| - 1];
      (if e in subset then e.target else e.source) in OldSubsetPass(h, es, subset).default
  {
    var front := es[..|es| - 1];
    var e := es[|es| - 1];
    var r := PushAll(ResetDefault(h), front, subset);
    PushAllKeys(ResetDefault(h), front, subset);
    if e in subset {
      PushWithoutKeys(r, e.source, e.target);
    } else {
      PushWithoutKeys(r, e.target, e.source);
    }
  }

  /** A vertex that reads as its own neighbour is a cycle, so the view fails
      the peeling check. */
  lemma SelfLoopCyclic<V(!new)>(vs: seq<V>, h: DefaultHash<V>, p: V)
    requires p in vs && p in Fetch(h, p)
    ensures !Acyclic(View(vs, h))
  {
    var g := View(vs, h);
    assert IsCycle(g, g.verts, [p, p]);
    if Acyclic(g) {
      AcyclicHasNoCycle(g, g.verts, [p, p]);
    }
  }

  /** On a non-empty edge list between listed vertices and a hash with no
      key, which is all the older revision ever builds, every subset yields a
      graph in which a vertex points to itself, so no graph is kept. */
  lemma {:induction false} OldCompatRunKeepsNothing<V(!new)>(vs: seq<V>, es: seq<Edge<V>>, subsets: seq<seq<Edge<V>>>, h: DefaultHash<V>)
    requires h.entries == map[] && es != []
    requires forall e :: e in es ==> e.source in vs && e.target in vs
    ensures OldCompatRun(vs, es, subsets, h).0.entries == map[]
    ensures OldCompatRun(vs, es, subsets, h).1 == 0
  {
    if subsets != [] {
      var run := OldCompatRun(vs, es, subsets[..|subsets| - 1], h);
      OldCompatRunKeepsNothing(vs, es, subsets[..|subsets| - 1], h);
      var s := subsets[|subsets| - 1];
      var e := es[|es| - 1];
      var h2 := OldSubsetPass(run.0, es, s);
      OldPassPushesLast(run.0, es, s);
      assert e in es;
      var p := if e in s then e.target else e.source;
      assert Fetch(h2, p) == h2.default;
      SelfLoopCyclic(vs, h2, p);
    }
  }

  /** So the older `compatible_orientations` returns no graph at all on a
      net with an edge, where the current revision keeps 2^|edges| graphs
      (CompatibleAsWrittenEdgeless). */
  lemma OldCompatibleKeepsNothing<V(!new)>(g: Graph<V>, h: DefaultHash<V>)
    requires h.entries == map[] && Edges(g) != []
    requires forall e :: e in Edges(g) ==> e.target in g.verts
    ensures OldCompatibleOrientations(g, h).0 == []
    ensures OldCompatibleOrientations(g, h).1.entries == map[]
  {
    EdgesFacts(g);
    OldCompatRunKeepsNothing(g.verts, Edges(g), PowerSet(Edges(g)), h);
  }
}
