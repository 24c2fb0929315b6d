/** `Glymour::StructureLearning::LearningNet` (lib/glymour.rb:240-333): the
    PC algorithm run in place on a net that starts complete, and the
    enumeration of the orientations compatible with the directions it found.
    Each method is proved to compute the matching function of module PC.
    The class describes the learner with every graph answering the
    GraphAlgorithms methods, `make_directed` in reach and the call at line
    296 reading `coindependent?(0.05, a, c, *subset)`; the functions at the
    end of the module describe what Ruby's method lookup and that call do as
    the code is written. */
module LearningNets {
  import opened Seqs
  import opened Graphs
  import opened SimplePaths
  import opened OpenTriples
  import opened Combinatorics
  import opened Acyclicity
  import opened PC
  import opened Ruby

  /** The test of one edge inside `step` (lib/glymour.rb:255-267): "Aab & Uab",
      and when it has more than `n` members, the search for a valid subset the
      oracle reports independent. */
  method TestEdge<V(==,!new)>(g: Graph<V>, e: Edge<V>, n: int, indep: Oracle<V>) returns (r: bool)
    ensures r <==> Removable(g, e, n, indep)
    ensures r ==> |Candidates(g, e.source, e.target)| > n
  {
    var intersect := CandidatesOf(g, e.source, e.target);
    if |intersect| <= n {
      return false;
    }
    r := AnyIndependent(intersect, n, e.source, e.target, indep);
  }

  /** `adjacent_either(a, b) & verts_on_paths(a, b)`: the candidate
      conditioning vertices, found by walking the simple paths. */
  method CandidatesOf<V(==,!new)>(g: Graph<V>, a: V, b: V) returns (r: seq<V>)
    ensures r == Candidates(g, a, b)
  {
    var uab := VertsOnPaths(g, a, b);
    r := Intersect(AdjacentEither(g, a, b), uab);
  }

  /** Lines 261-266: the power set of the candidates, `select` by size
      `n + 1`, `reject` the subsets holding an endpoint, and `any?` of the
      oracle. */
  method AnyIndependent<V(==,!new)>(cands: seq<V>, n: int, a: V, b: V, indep: Oracle<V>) returns (r: bool)
    ensures r <==> IndependentGiven(cands, n, a, b, indep)
  {
    var list := new ArrayList(cands);
    var subsets := list.PowerSetCopy();
    var valid := SelectValid(subsets, n, a, b);
    r := exists s :: s in valid && indep(a, b, s);
  }

  /** The test of one triple inside `learn_structure` (lib/glymour.rb:294-297):
      every subset of "Aac & Uac" that contains `b` is reported independent,
      with the threshold of the call at line 296 read as intended. */
  method TestCollider<V(==,!new)>(g: Graph<V>, t: Triple<V>, indep: Oracle<V>) returns (r: bool)
    ensures r <==> OrientsCollider(g, t, indep)
    ensures t.b !in Candidates(g, t.a, t.c) ==> r
  {
    var intersect := CandidatesOf(g, t.a, t.c);
    var list := new ArrayList(intersect);
    var subsets := list.PowerSetCopy();
    var withB := WithMember(subsets, t.b);
    r := forall s :: s in withB ==> indep(t.a, t.c, s);
    if t.b !in Candidates(g, t.a, t.c) {
      OrientsWithoutCandidate(g, t, indep);
    }
  }

  /** The loop of `step` (lib/glymour.rb:253-274) over the edges `es` listed
      before the round: each edge is tested on the graph as updated so far. */
  method RunRound<V(==,!new)>(g: Graph<V>, es: seq<Edge<V>>, n: int, indep: Oracle<V>) returns (h: Graph<V>, any: bool)
    ensures (h, any) == Round(g, es, n, indep)
  {
    h, any := g, false;
    for i := 0 to |es|
      invariant (h, any) == Round(g, es[..i], n, indep)
    {
      RoundPrefix(g, es, i, n, indep);
      var removable := TestEdge(h, es[i], n, indep);
      if removable {
        h := RemoveEdge(h, es[i]);
        any := true;
      }
    }
    assert es[..|es|] == es;
  }

  /** The direction map `compatible_orientations` builds for one subset of
      the edges (lib/glymour.rb:314-325), on a copy of the fixed directions.
      The source's `directed_edges.include? e` asks whether an edge is a key
      of a vertex-keyed hash, which never holds, so every edge is oriented. */
  method OrientFor<V(==,!new)>(d: map<V, set<V>>, es: seq<Edge<V>>, subset: seq<Edge<V>>) returns (o: map<V, set<V>>)
    ensures o == Orientation(d, es, subset)
    ensures forall x :: Targets(d, x) <= Targets(o, x)
    ensures forall e :: e in es && e in subset ==> e.target in Targets(o, e.source)
    ensures forall e :: e in es && e !in subset ==> e.source in Targets(o, e.target)
  {
    o := d;
    for j := 0 to |es|
      invariant o == Orientation(d, es[..j], subset)
    {
      var e := es[j];
      if e in subset {
        o := AddDirection(o, e.source, e.target);
      } else {
        o := AddDirection(o, e.target, e.source);
      }
      assert es[..j + 1][..j] == es[..j];
    }
    assert es[..|es|] == es;
    OrientationMeaning(d, es, subset);
  }

  /** The orientation pass of `learn_structure` (lib/glymour.rb:290-301)
      over the open triples of `g`, starting from the directions `d`. */
  method OrientColliders<V(==,!new)>(g: Graph<V>, d: map<V, set<V>>, indep: Oracle<V>) returns (r: map<V, set<V>>)
    ensures r == Orient(g, NonTransitiveOf(g), d, indep)
    ensures forall x :: Targets(d, x) <= Targets(r, x)
    ensures forall x, y :: y in Targets(r, x) && y !in Targets(d, x) ==>
      exists t :: t in NonTransitiveOf(g) && OrientsCollider(g, t, indep) && y == t.b && (x == t.a || x == t.c)
  {
    var triples := NonTransitive(g);
    r := OrientEach(g, triples, d, indep);
    OrientMonotone(g, triples, d, indep);
  }

  /** The `each` over the listed triples (lib/glymour.rb:292-301): a triple
      that passes the collider test adds `a -> b` and `c -> b`. */
  method OrientEach<V(==,!new)>(g: Graph<V>, triples: seq<Triple<V>>, d: map<V, set<V>>, indep: Oracle<V>) returns (r: map<V, set<V>>)
    ensures r == Orient(g, triples, d, indep)
  {
    r := d;
    for i := 0 to |triples|
      invariant r == Orient(g, triples[..i], d, indep)
    {
      OrientPrefix(g, triples, i, d, indep);
      var t := triples[i];
      var collider := TestCollider(g, t, indep);
      if collider {
        r := AddDirection(AddDirection(r, t.a, t.b), t.c, t.b);
      }
    }
    assert triples[..|triples|] == triples;
  }

  /** The loop of `compatible_orientations` (lib/glymour.rb:312-330) over
      the listed subsets of the edges `es`: one candidate graph per subset,
      kept when acyclic. */
  method KeepAcyclic<V(==,!new)>(g: Graph<V>, d: map<V, set<V>>, es: seq<Edge<V>>, subsets: seq<seq<Edge<V>>>)
    returns (compat: seq<Graph<V>>)
    ensures compat == CompatFrom(g, d, es, subsets)
  {
    compat := [];
    for i := 0 to |subsets|
      invariant compat == CompatFrom(g, d, es, subsets[..i])
    {
      CompatPrefix(g, d, es, subsets, i);
      compat := ConsiderSubset(g, d, es, subsets[i], compat);
    }
    assert subsets[..|subsets|] == subsets;
  }

  /** One pass of the loop of `compatible_orientations`: orient the edges
      by `subset`, build the directed graph and keep it when acyclic. */
  method ConsiderSubset<V(==,!new)>(g: Graph<V>, d: map<V, set<V>>, es: seq<Edge<V>>, subset: seq<Edge<V>>, acc: seq<Graph<V>>)
    returns (compat: seq<Graph<V>>)
    ensures var h := MakeDirected(g.verts, Orientation(d, es, subset));
      compat == acc + if Acyclic(h) then [h] else []
  {
    var current := OrientFor(d, es, subset);
    var h := MakeDirected(g.verts, current);
    compat := acc;
    if Acyclic(h) {
      compat := compat + [h];
    }
  }

  class LearningNet<V(==,!new)> {
    var net: Graph<V>
    var directedEdges: map<V, set<V>>
    var n: int

    /** `initialize`: the complete graph on the variables, no fixed
        direction, and `n = -1` so that the first step conditions on the
        empty set. */
    constructor (variables: seq<V>)
      ensures net == CompleteGraph(variables) && directedEdges == map[] && n == -1
    {
      net := CompleteGraph(variables);
      directedEdges := map[];
      n := -1;
    }

    /** `step`: one PC round over the edges listed before the round, then
        `n += 1`. The net only loses adjacencies, and a reported removal
        lowers the adjacency-pair count, which is what makes
        `learn_structure` terminate. */
    method Step(indep: Oracle<V>) returns (anyIndependent: bool)
      modifies this
      ensures net == Round(old(net), Edges(old(net)), old(n), indep).0
      ensures anyIndependent == Round(old(net), Edges(old(net)), old(n), indep).1
      ensures n == old(n) + 1 && directedEdges == old(directedEdges)
      ensures net.verts == old(net.verts)
      ensures forall x, u :: u in Adj(net, x) ==> u in Adj(old(net), x)
      ensures PairCount(net) <= PairCount(old(net))
      ensures anyIndependent ==> PairCount(net) < PairCount(old(net))
      ensures !anyIndependent ==> net == old(net) && Settled(old(net), n, indep)
    {
      var g0 := net;
      net, anyIndependent := RunRound(net, Edges(net), n, indep);
      RoundOverEdges(g0, n, indep);
      n := n + 1;
    }

    /** `learn_structure`: `step` until a round removes nothing (the net at
        that point is `final_net`), then orient `a -> b <- c` for every open
        triple that passes the collider test. Returns `final_net`. */
    method LearnStructure(indep: Oracle<V>) returns (finalNet: Graph<V>)
      modifies this
      ensures (finalNet, n) == SkeletonOf(old(net), old(n), indep)
      ensures finalNet == net
      ensures Settled(finalNet, n, indep)
      ensures n > old(n)
      ensures net.verts == old(net.verts)
      ensures forall x, u :: u in Adj(net, x) ==> u in Adj(old(net), x)
      ensures PairCount(net) <= PairCount(old(net))
      ensures directedEdges == Orient(finalNet, NonTransitiveOf(finalNet), old(directedEdges), indep)
      ensures forall x :: Targets(old(directedEdges), x) <= Targets(directedEdges, x)
    {
      SkeletonFacts(net, n, indep);
      finalNet := Skeleton(indep);
      directedEdges := OrientColliders(finalNet, directedEdges, indep);
    }

    /** The `begin ... end while self.step` loop of `learn_structure`: the
        net left when a round first removes nothing, as SkeletonOf defines. */
    method Skeleton(indep: Oracle<V>) returns (finalNet: Graph<V>)
      modifies this
      ensures (finalNet, n) == SkeletonOf(old(net), old(n), indep)
      ensures finalNet == net && directedEdges == old(directedEdges)
    {
      finalNet := net;
      ghost var level := n;
      var more := Step(indep);
      while more
        invariant n == level + 1 && directedEdges == old(directedEdges)
        invariant net == Round(finalNet, Edges(finalNet), level, indep).0
        invariant more == Round(finalNet, Edges(finalNet), level, indep).1
        invariant SkeletonOf(finalNet, level, indep) == SkeletonOf(old(net), old(n), indep)
        invariant more ==> PairCount(net) < PairCount(finalNet)
        decreases PairCount(finalNet)
      {
        SkeletonContinues(finalNet, level, indep);
        finalNet := net;
        level := n;
        more := Step(indep);
      }
      RoundOverEdges(finalNet, level, indep);
      SkeletonStops(finalNet, level, indep);
    }

    /** `compatible_orientations`: for every subset of the edges, orient the
        edges in it `source -> target` and the others `target -> source` on
        top of the fixed directions, and keep the acyclic results. */
    method CompatibleOrientations() returns (compat: seq<Graph<V>>)
      ensures compat == CompatibleOf(net, directedEdges)
      ensures |compat| <= Pow2(|Edges(net)|)
      ensures forall h, w :: h in compat ==> !IsCycle(h, h.verts, w)
      ensures forall h :: h in compat ==>
        (h.verts == net.verts && exists s :: s in PowerSet(Edges(net)) && h == MakeDirected(net.verts, Orientation(directedEdges, Edges(net), s)))
      ensures forall s :: IsSubseq(s, Edges(net)) && (forall w :: !IsCycle(MakeDirected(net.verts, Orientation(directedEdges, Edges(net), s)), net.verts, w)) ==>
        MakeDirected(net.verts, Orientation(directedEdges, Edges(net), s)) in compat
    {
      var edges := Edges(net);
      var list := new ArrayList(edges);
      var subsets := list.PowerSetCopy();
      compat := KeepAcyclic(net, directedEdges, edges, subsets);
      CompatibleMeaning(net, directedEdges);
    }
  }

  // ---------------------------------------------------------------------
  // Method lookup and the collider test as written

  /** One round of `step` as written, on a graph that answers the
      GraphAlgorithms methods when `extended` holds. `remove_edge`
      (lib/glymour.rb:17-26) builds a plain `RGL::ImplicitGraph`, without
      the `.extend(GraphAlgorithms)` of line 245, so once an edge is removed
      the next edge of the round raises NoMethodError at `adjacent_either`
      (line 256); on a plain graph the first edge already raises. */
  function RoundAsWritten<V(==,!new)>(g: Graph<V>, extended: bool, es: seq<Edge<V>>, n: int, indep: Oracle<V>): Outcome<(Graph<V>, bool)>
  {
    if es == [] then Ok((g, false))
    else
      var r := RoundAsWritten(g, extended, es[..|es| - 1], n, indep);
      if r.Raise? then r
      else
        var (h, any) := r.value;
        var e := es[|es| - 1];
        if !extended || any then Raise(NoMethodError)
        else if Removable(h, e, n, indep) then Ok((RemoveEdge(h, e), true))
        else Ok((h, any))
  }

  /** On the extended net the round as written agrees with Round until the
      first removal, and raises exactly when an edge follows that removal. */
  lemma {:induction false} RoundAsWrittenMeaning<V(!new)>(g: Graph<V>, es: seq<Edge<V>>, n: int, indep: Oracle<V>)
    ensures RoundAsWritten(g, true, es, n, indep) ==
      if es != [] && Round(g, es[..|es| - 1], n, indep).1 then Raise(NoMethodError) else Ok(Round(g, es, n, indep))
  {
    if es != [] {
      var front := es[..|es| - 1];
      RoundAsWrittenMeaning(g, front, n, indep);
      var r := RoundAsWritten(g, true, front, n, indep);
      if r.Raise? {
        RoundRemovalStays(g, front, n, indep);
      }
    }
  }

  /** Once a round has removed an edge it reports a removal to the end. */
  lemma RoundRemovalStays<V(!new)>(g: Graph<V>, es: seq<Edge<V>>, n: int, indep: Oracle<V>)
    requires es != [] && Round(g, es[..|es| - 1], n, indep).1
    ensures Round(g, es, n, indep).1
  {
  }

  /** On a plain graph the round as written raises unless there is no edge
      to test. */
  lemma {:induction false} RoundAsWrittenPlain<V(!new)>(g: Graph<V>, es: seq<Edge<V>>, n: int, indep: Oracle<V>)
    ensures RoundAsWritten(g, false, es, n, indep) == if es == [] then Ok((g, false)) else Raise(NoMethodError)
  {
    if es != [] {
      RoundAsWrittenPlain(g, es[..|es| - 1], n, indep);
    }
  }

  /** The collider pass of `learn_structure` as written (lib/glymour.rb:291-301)
      over the triples `ts`. Line 296 calls `coindependent?(a, c, *subset)`
      without a threshold, so `a` is taken as the threshold `p_val`, and the
      comparison of the chi-square p-value with it (line 145 or 164) raises
      ArgumentError for a `Variable`. The `all?` calls it on the first subset
      containing `b`, and there is one exactly when `b` is a candidate; a
      triple without a candidate middle vertex is oriented by the vacuous
      `all?`. */
  function CollidersAsWritten<V(==,!new)>(g: Graph<V>, ts: seq<Triple<V>>, d: map<V, set<V>>): Outcome<map<V, set<V>>>
  {
    if ts == [] then Ok(d)
    else
      var r := CollidersAsWritten(g, ts[..|ts| - 1], d);
      var t := ts[|ts| - 1];
      if r.Raise? then r
      else if Tested(g, t) then Raise(ArgumentError)
      else Ok(AddDirection(AddDirection(r.value, t.a, t.b), t.c, t.b))
  }

  /** Whether the `all?` of line 295 has a subset to test for `t`: its
      middle vertex is a candidate for its ends. */
  predicate Tested<V(==,!new)>(g: Graph<V>, t: Triple<V>)
  {
    t.b in Candidates(g, t.a, t.c)
  }

  /** The pass as written raises ArgumentError exactly when some triple has
      its middle vertex among the candidates of its ends. Otherwise it
      directs the edges as the intended pass does, whatever the oracle. */
  lemma CollidersAsWrittenMeaning<V(!new)>(g: Graph<V>, ts: seq<Triple<V>>, d: map<V, set<V>>, indep: Oracle<V>)
    ensures CollidersAsWritten(g, ts, d) ==
      if exists t :: t in ts && Tested(g, t) then Raise(ArgumentError) else Ok(Orient(g, ts, d, indep))
  {
    CollidersAsWrittenRaises(g, ts, d);
    if CollidersAsWritten(g, ts, d).Ok? {
      CollidersAsWrittenOrients(g, ts, d, indep);
    }
  }

  /** The pass raises, always ArgumentError, exactly when a triple is tested. */
  lemma {:induction false} CollidersAsWrittenRaises<V(!new)>(g: Graph<V>, ts: seq<Triple<V>>, d: map<V, set<V>>)
    ensures CollidersAsWritten(g, ts, d).Raise? <==> exists t :: t in ts && Tested(g, t)
    ensures CollidersAsWritten(g, ts, d).Raise? ==> CollidersAsWritten(g, ts, d).error == ArgumentError
  {
    if ts != [] {
      var front := ts[..|ts| - 1];
      var t := ts[|ts| - 1];
      assert ts == front + [t];
      CollidersAsWrittenRaises(g, front, d);
    }
  }

  /** When the pass returns, it has directed as the intended pass does. */
  lemma {:induction false} CollidersAsWrittenOrients<V(!new)>(g: Graph<V>, ts: seq<Triple<V>>, d: map<V, set<V>>, indep: Oracle<V>)
    requires CollidersAsWritten(g, ts, d).Ok?
    ensures CollidersAsWritten(g, ts, d).value == Orient(g, ts, d, indep)
  {
    if ts != [] {
      var front := ts[..|ts| - 1];
      var t := ts[|ts| - 1];
      CollidersAsWrittenOrients(g, front, d, indep);
      OrientsWithoutCandidate(g, t, indep);
    }
  }

  /** The middle vertex of an open triple is a candidate for its ends
      exactly when the ends differ: `a - b - c` is then a simple path, while
      from a vertex to itself the only simple path is the vertex alone. */
  lemma OpenTripleTested<V(!new)>(g: Graph<V>, t: Triple<V>)
    requires t in NonTransitiveOf(g)
    ensures Tested(g, t) <==> t.a != t.c
  {
    NonTransitiveMembers(g);
    if t.a != t.c {
      WalkTested(g, t);
    } else {
      SelfNotTested(g, t.a, t.b);
    }
  }

  /** `a - b - c` with distinct ends is a simple path, so `b` is a candidate. */
  lemma WalkTested<V(!new)>(g: Graph<V>, t: Triple<V>)
    requires t.b in Adj(g, t.a) && t.c in Adj(g, t.b) && t.c !in Adj(g, t.a) && t.a != t.c
    ensures Tested(g, t)
  {
    CandidatesMeaning(g, t.a, t.c);
    var p := [t.a, t.b, t.c];
    assert SimplePath(g, p, t.a, t.c);
  }

  /** The only simple path from `a` to itself is `[a]`, which `b` is not on. */
  lemma SelfNotTested<V(!new)>(g: Graph<V>, a: V, b: V)
    requires b in Adj(g, a) && a !in Adj(g, a)
    ensures !Tested(g, Triple(a, b, a))
  {
    CandidatesMeaning(g, a, a);
    forall p | SimplePath(g, p, a, a) ensures p == [a] {
      assert p[0] == p[|p| - 1];
    }
  }

  /** On a net, the pass as written raises ArgumentError exactly when the
      net has an open triple whose ends differ. */
  lemma CollidersAsWrittenOnNet<V(!new)>(g: Graph<V>, d: map<V, set<V>>, indep: Oracle<V>)
    ensures CollidersAsWritten(g, NonTransitiveOf(g), d) ==
      if exists t :: t in NonTransitiveOf(g) && t.a != t.c then Raise(ArgumentError)
      else Ok(Orient(g, NonTransitiveOf(g), d, indep))
  {
    var ts := NonTransitiveOf(g);
    CollidersAsWrittenMeaning(g, ts, d, indep);
    forall t | t in ts
      ensures Tested(g, t) <==> t.a != t.c
    {
      OpenTripleTested(g, t);
    }
  }

  /** `learn_structure` as written, from a net that answers the
      GraphAlgorithms methods, at counter `n` and with directions `d`. When
      the first round removes nothing, `final_net` is that net and the
      collider pass as written runs on it. Otherwise the second round runs on
      the plain graph `remove_edge` left: it raises on its first edge, or,
      with no edge left, reports no removal, so that the plain graph becomes
      `final_net` and `non_transitive` raises at line 291. */
  function LearnStructureAsWritten<V(==,!new)>(g: Graph<V>, n: int, d: map<V, set<V>>, indep: Oracle<V>): Outcome<(Graph<V>, map<V, set<V>>)>
  {
    var first := RoundAsWritten(g, true, Edges(g), n, indep);
    if first.Raise? then Raise(first.error)
    else if !first.value.1 then
      var directions := CollidersAsWritten(g, NonTransitiveOf(g), d);
      if directions.Raise? then Raise(directions.error) else Ok((g, directions.value))
    else
      var h := first.value.0;
      var second := RoundAsWritten(h, false, Edges(h), n + 1, indep);
      if second.Raise? then Raise(second.error)
      else
        // the plain graph reports no removal (RoundAsWrittenPlain), becomes
        // `final_net`, and has no `non_transitive`
        Raise(NoMethodError)
  }

  /** As written, `learn_structure` raises exactly when its first round
      removes an edge, with NoMethodError, or when the net has an open
      triple whose ends differ, with ArgumentError at line 296. */
  lemma LearnStructureAsWrittenRaises<V(!new)>(g: Graph<V>, n: int, d: map<V, set<V>>, indep: Oracle<V>)
    ensures LearnStructureAsWritten(g, n, d, indep).Raise? <==>
      Round(g, Edges(g), n, indep).1 || exists t :: t in NonTransitiveOf(g) && t.a != t.c
    ensures Round(g, Edges(g), n, indep).1 ==> LearnStructureAsWritten(g, n, d, indep) == Raise(NoMethodError)
    ensures !Round(g, Edges(g), n, indep).1 && (exists t :: t in NonTransitiveOf(g) && t.a != t.c) ==>
      LearnStructureAsWritten(g, n, d, indep) == Raise(ArgumentError)
  {
    var es := Edges(g);
    RoundAsWrittenMeaning(g, es, n, indep);
    var first := RoundAsWritten(g, true, es, n, indep);
    if es != [] && Round(g, es[..|es| - 1], n, indep).1 {
      RoundRemovalStays(g, es, n, indep);
    } else if first.value.1 {
      RoundAsWrittenPlain(first.value.0, Edges(first.value.0), n + 1, indep);
    } else {
      CollidersAsWrittenOnNet(g, d, indep);
    }
  }

  /** Otherwise it returns the net it started from, settled, whose open
      triples all have equal ends, with the directions of the collider
      pass. */
  lemma LearnStructureAsWrittenOk<V(!new)>(g: Graph<V>, n: int, d: map<V, set<V>>, indep: Oracle<V>)
    ensures LearnStructureAsWritten(g, n, d, indep).Ok? ==>
      LearnStructureAsWritten(g, n, d, indep).value == (g, Orient(g, NonTransitiveOf(g), d, indep)) && Settled(g, n + 1, indep) &&
      forall t :: t in NonTransitiveOf(g) ==> t.a == t.c
  {
    var es := Edges(g);
    RoundAsWrittenMeaning(g, es, n, indep);
    var first := RoundAsWritten(g, true, es, n, indep);
    if first.Ok? && first.value.1 {
      RoundAsWrittenPlain(first.value.0, Edges(first.value.0), n + 1, indep);
    } else if first.Ok? {
      CollidersAsWrittenOnNet(g, d, indep);
    }
  }

  /** The oracle that reports every pair independent, whatever the
      conditioning set. */
  function AlwaysIndependent<V(!new)>(): (indep: Oracle<V>)
    ensures forall a, b, s :: indep(a, b, s)
  {
    (a, b, s) => true
  }

  /** At `n = -1` that oracle makes every edge removable: the empty set is
      the one valid subset, and it is reported independent. */
  lemma EveryEdgeRemovable<V(!new)>(g: Graph<V>, e: Edge<V>)
    ensures Removable(g, e, -1, AlwaysIndependent())
  {
    var cands := Candidates(g, e.source, e.target);
    var none: seq<V> := [];
    ValidSubsetsMeaning(cands, -1, e.source, e.target, none);
    assert IsSubseq(none, cands);
    assert none in ValidSubsets(cands, -1, e.source, e.target);
  }

  /** So, as written, `learn_structure` on the complete net of two or more
      variables raises when the oracle reports every pair independent. */
  lemma LearnStructureRaisesAfterRemoval<V(!new)>(vs: seq<V>, u: V, v: V)
    requires u in vs && v in vs && u != v
    ensures LearnStructureAsWritten(CompleteGraph(vs), -1, map[], AlwaysIndependent()) == Raise(NoMethodError)
  {
    var g := CompleteGraph(vs);
    CompleteGraphAdjacency(vs, u);
    EdgesFacts(g);
    assert Edge(u, v) in Edges(g) || Edge(v, u) in Edges(g);
    var es := Edges(g);
    EveryEdgeRemovable(Round(g, es[..|es| - 1], -1, AlwaysIndependent()).0, es[|es| - 1]);
    LearnStructureAsWrittenRaises(g, -1, map[], AlwaysIndependent());
  }

  /** `compatible_orientations` as written. `make_directed` (line 231) is an
      instance method of module StructureLearning, which LearningNet does not
      include, so line 328 raises NoMethodError on the first subset, once its
      edge loop has run; only an empty list of subsets would let the loop
      finish. */
  function CompatibleAsWritten<V(==,!new)>(g: Graph<V>): Outcome<seq<Graph<V>>>
  {
    var subsets := PowerSet(Edges(g));
    if subsets == [] then Ok([]) else Raise(NoMethodError)
  }

  /** The power set always holds the empty subset, so as written
      `compatible_orientations` raises on every net. */
  lemma CompatibleAsWrittenRaises<V(!new)>(g: Graph<V>)
    ensures CompatibleAsWritten(g) == Raise(NoMethodError)
  {
    PowerSetBounds(Edges(g));
  }

  /** The oracle that never reports independence. */
  function NeverIndependent<V(!new)>(): (indep: Oracle<V>)
    ensures forall a, b, s :: !indep(a, b, s)
  {
    (a, b, s) => false
  }

  /** So, as written, `learn_structure` on the path `1 - 2 - 3` raises
      ArgumentError at line 296 when no edge is removed: the open triple
      `(1, 2, 3)` makes the collider pass test the subset `[2]`. */
  lemma LearnStructureRaisesOnPath()
    ensures LearnStructureAsWritten(PathNet(), 5, map[], NeverIndependent()) == Raise(ArgumentError)
  {
    var g := PathNet();
    RoundWithoutIndependence(g, Edges(g), 5, NeverIndependent());
    NonTransitiveMembers(g);
    assert Triple(1, 2, 3) in NonTransitiveOf(g);
    LearnStructureAsWrittenRaises(g, 5, map[], NeverIndependent());
  }

  /** The net `1 - 2 - 3`. */
  function PathNet(): (g: Graph<int>)
    ensures Adj(g, 1) == [2] && Adj(g, 2) == [1, 3] && Adj(g, 3) == [2]
  {
    Graph([1, 2, 3], map[1 := [2], 2 := [1, 3], 3 := [2]])
  }
}
